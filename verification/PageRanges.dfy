/** Loops over ranges of pages (src/memory/mem.c): what mapping, allocating and freeing a range
    changes, and when it can succeed. */
module PageRanges {
  import opened Words
  import opened Entries
  import opened PageTables
  import opened Paging

  /** The first page of the self-map. */
  const TABLES_PAGE: int := 0xF_FC00

  predicate Between(q: Page, page: nat, count: nat) {
    page <= q < page + count
  }

  ghost function Pages(page: nat, count: nat): set<Page> {
    set q: Page | page <= q < page + count && Between(q, page, count)
  }

  /** Slots of the range's tables that do not exist yet. */
  ghost function Missing(p: Phys, d: int, page: nat, count: nat): set<Index>
    requires |p| == FRAMES && 0 < d < FRAMES && page + count <= TABLES_PAGE
  {
    if count == 0 then {} else set i: Index | Pdi(page) <= i <= Pdi(page + count - 1) && !Present(p[d][i])
  }

  /** A user page is asked for where the kernel has a table of its own. */
  ghost predicate Refused(p: Phys, d: int, page: nat, count: nat, flags: FlagBits)
    requires |p| == FRAMES && 0 < d < FRAMES && page + count <= TABLES_PAGE
  {
    && UserBit(flags) && count > 0
    && exists i: Index :: Pdi(page) <= i <= Pdi(page + count - 1) && Present(p[d][i]) && !UserBit(p[d][i])
  }

  /** The range can be mapped with `spare` frames for new tables. */
  ghost predicate CanMap(p: Phys, d: int, page: nat, count: nat, flags: FlagBits, spare: int)
    requires |p| == FRAMES && 0 < d < FRAMES && page + count <= TABLES_PAGE
  {
    !Refused(p, d, page, count, flags) && spare >= |Missing(p, d, page, count)|
  }

  ghost predicate Unmapped(p: Phys, d: int, page: nat, count: nat)
    requires |p| == FRAMES && 0 < d < FRAMES && page + count <= TABLES_PAGE
  {
    forall q: Page :: page <= q < page + count ==> !Present(EntryAt(p, d, q))
  }

  /** Tables were added to `d` in slots of the range only. */
  ghost predicate SlotsGrow(p: Phys, p': Phys, dirs: set<int>, d: int, page: nat, count: nat)
    requires |p| == |p'| == FRAMES && (forall d :: d in dirs ==> 0 < d < FRAMES) && d in dirs
    requires page + count <= TABLES_PAGE
  {
    && (forall d' :: d' in dirs && d' != d ==> p'[d'] == p[d'])
    && forall i: Index ::
         if !Present(p[d][i]) && count > 0 && Pdi(page) <= i <= Pdi(page + count - 1) then Present(p'[d][i])
         else p'[d][i] == p[d][i]
  }

  /** From `p` to `p'` the range got these entries, and nothing else changed but the window. */
  ghost predicate RangeMapped(p: Phys, p': Phys, dirs: set<int>, d: int, page: nat, entries: seq<u32>, window: Page)
    requires |p| == |p'| == FRAMES && (forall d :: d in dirs ==> 0 < d < FRAMES) && d in dirs
    requires page + |entries| <= TABLES_PAGE
  {
    && (forall k :: 0 <= k < |entries| ==> EntryAt(p', d, page + k) == entries[k])
    && OnlyPages(p, p', dirs, d, Pages(page, |entries|) + {window})
    && SlotsGrow(p, p', dirs, d, page, |entries|)
  }

  lemma SlotOrder(q: Page, r: Page)
    ensures q <= r ==> Pdi(q) <= Pdi(r)
    ensures q < TABLES_PAGE <==> Pdi(q) < 1023
    ensures r == q + 1 ==> Pdi(r) <= Pdi(q) + 1
  {
  }

  lemma MissingStep(p: Phys, p': Phys, dirs: set<int>, d: int, page: nat, count: nat, e: u32)
    requires |p| == |p'| == FRAMES && (forall d :: d in dirs ==> 0 < d < FRAMES) && d in dirs
    requires 0 < count && page + count <= TABLES_PAGE && OnlySlot(p, p', dirs, d, Pdi(page), e) && Present(e)
    ensures Missing(p', d, page + 1, count - 1) == Missing(p, d, page, count) - {Pdi(page)}
    ensures Pdi(page) in Missing(p, d, page, count) <==> !Present(p[d][Pdi(page)])
  {
    hide Pdi, Present;
    SlotOrder(page, page + count - 1);
    if count > 1 {
      SlotOrder(page, page + 1);
      SlotOrder(page + 1, page + count - 1);
    }
  }

  lemma RefusedStep(p: Phys, p': Phys, dirs: set<int>, d: int, page: nat, count: nat, flags: FlagBits, e: u32)
    requires |p| == |p'| == FRAMES && (forall d :: d in dirs ==> 0 < d < FRAMES) && d in dirs
    requires 0 < count && page + count <= TABLES_PAGE && OnlySlot(p, p', dirs, d, Pdi(page), e)
    requires Present(p[d][Pdi(page)]) ==> e == p[d][Pdi(page)]
    requires UserBit(flags) ==> UserBit(e)
    ensures Refused(p, d, page, count, flags) <==> Refused(p', d, page + 1, count - 1, flags)
  {
    hide Pdi, Present, UserBit;
    SlotOrder(page, page + count - 1);
    if count > 1 {
      SlotOrder(page, page + 1);
      SlotOrder(page + 1, page + count - 1);
    }
  }

  /** The first page of a range can be mapped or not; the rest decides. */
  lemma CanMapStep(p: Phys, p': Phys, dirs: set<int>, d: int, page: nat, count: nat, flags: FlagBits, spare: int,
                   e: u32)
    requires |p| == |p'| == FRAMES && (forall d :: d in dirs ==> 0 < d < FRAMES) && d in dirs
    requires 0 < count && page + count <= TABLES_PAGE && OnlySlot(p, p', dirs, d, Pdi(page), e) && Present(e)
    requires Present(p[d][Pdi(page)]) ==> e == p[d][Pdi(page)]
    requires UserBit(flags) ==> UserBit(e)
    ensures CanMap(p, d, page, count, flags, spare)
        <==> CanMap(p', d, page + 1, count - 1, flags, if Present(p[d][Pdi(page)]) then spare else spare - 1)
  {
    hide Pdi, Present, UserBit, Refused, Missing;
    MissingStep(p, p', dirs, d, page, count, e);
    RefusedStep(p, p', dirs, d, page, count, flags, e);
  }

  lemma CannotMap(p: Phys, d: int, page: nat, count: nat, flags: FlagBits, spare: int)
    requires |p| == FRAMES && 0 < d < FRAMES && 0 < count && page + count <= TABLES_PAGE
    requires var pde := p[d][Pdi(page)]; if Present(pde) then UserBit(flags) && !UserBit(pde) else spare <= 0
    ensures !CanMap(p, d, page, count, flags, spare)
  {
    hide Pdi, Present, UserBit;
    SlotOrder(page, page + count - 1);
    if !Present(p[d][Pdi(page)]) {
      assert Pdi(page) in Missing(p, d, page, count);
    }
  }

  lemma NothingMapped(p: Phys, dirs: set<int>, d: int, page: nat, window: Page)
    requires |p| == FRAMES && (forall d :: d in dirs ==> 0 < d < FRAMES) && d in dirs && page <= TABLES_PAGE
    ensures RangeMapped(p, p, dirs, d, page, [], window)
  {
  }

  /** One more page of a range is mapped. */
  lemma RangeGrows(p: Phys, p1: Phys, p2: Phys, dirs: set<int>, d: int, page: nat, entries: seq<u32>, window: Page,
                   e: u32, slot: u32)
    requires |p| == |p1| == |p2| == FRAMES && (forall d :: d in dirs ==> 0 < d < FRAMES) && d in dirs
    requires page + |entries| < TABLES_PAGE && RangeMapped(p, p1, dirs, d, page, entries, window)
    requires window !in Pages(page, |entries| + 1)
    requires EntryAt(p2, d, page + |entries|) == e && OnlyPages(p1, p2, dirs, d, {page + |entries|, window})
    requires OnlySlot(p1, p2, dirs, d, Pdi(page + |entries|), slot) && Present(slot)
    requires Present(p1[d][Pdi(page + |entries|)]) ==> slot == p1[d][Pdi(page + |entries|)]
    ensures RangeMapped(p, p2, dirs, d, page, entries + [e], window)
  {
    hide EntryAt, Pdi, Present, OnlySlot, SlotsGrow;
    var n := |entries|;
    forall k | 0 <= k < n + 1 ensures EntryAt(p2, d, page + k) == (entries + [e])[k] {
      SlotOrder(page + k, page + k);
      if k < n { assert page + k in Pages(page, n + 1) && page + k != window; }
    }
    assert Pages(page, n + 1) + {window} == Pages(page, n) + {window} + {page + n, window};
    PagesAlong(p, p1, p2, dirs, d, Pages(page, n) + {window}, {page + n, window});
    SlotsGrowStep(p, p1, p2, dirs, d, page, n, slot);
  }

  lemma SlotsGrowStep(p: Phys, p1: Phys, p2: Phys, dirs: set<int>, d: int, page: nat, n: nat, slot: u32)
    requires |p| == |p1| == |p2| == FRAMES && (forall d :: d in dirs ==> 0 < d < FRAMES) && d in dirs
    requires page + n < TABLES_PAGE
    requires SlotsGrow(p, p1, dirs, d, page, n) && OnlySlot(p1, p2, dirs, d, Pdi(page + n), slot) && Present(slot)
    requires Present(p1[d][Pdi(page + n)]) ==> slot == p1[d][Pdi(page + n)]
    ensures SlotsGrow(p, p2, dirs, d, page, n + 1)
  {
    hide Pdi, Present;
    SlotOrder(page, page + n);
    if n > 0 {
      SlotOrder(page, page + n - 1);
      SlotOrder(page + n - 1, page + n);
    }
  }

  lemma StillUnmapped(p: Phys, p': Phys, dirs: set<int>, d: int, page: nat, count: nat, window: Page)
    requires |p| == |p'| == FRAMES && (forall d :: d in dirs ==> 0 < d < FRAMES) && d in dirs
    requires 0 < count && page + count <= TABLES_PAGE && window !in Pages(page, count)
    requires OnlyPages(p, p', dirs, d, {page, window})
    ensures Unmapped(p, d, page, count) <==> !Present(EntryAt(p, d, page)) && Unmapped(p', d, page + 1, count - 1)
  {
    hide EntryAt, Pdi, Present, Shared;
    forall q: Page | page < q < page + count ensures EntryAt(p', d, q) == EntryAt(p, d, q) {
      SlotOrder(q, q);
      assert q in Pages(page, count);
    }
  }

  // ---------- allocation ----------

  ghost function EntriesFor(frames: seq<int>, flags: FlagBits): (entries: seq<u32>)
    requires AllInRange(frames)
    ensures |entries| == |frames|
  {
    seq(|frames|, k requires 0 <= k < |frames| => CreateEntry(Address(frames[k]), flags))
  }

  /** `frames` and the new tables came from the free frames, each once, and no other frame left them. */
  ghost predicate FramesTaken(free: seq<int>, tables: set<int>, free': seq<int>, tables': set<int>, frames: seq<int>) {
    && NoDuplicates(frames) && AllInRange(frames)
    && (forall k :: 0 <= k < |frames| ==> frames[k] in free && frames[k] !in free' && frames[k] !in tables')
    && tables <= tables' && (forall t :: t in tables' ==> t in tables || t in free)
    && (forall f :: f in free' ==> f in free)
    && (forall f :: f in free ==> f in free' || f in tables' || f in frames)
    && |free'| <= |free|
  }

  /** The free frames after one page was allocated. */
  ghost predicate OneTaken(free: seq<int>, tables: set<int>, free': seq<int>, tables': set<int>, newTable: bool) {
    if newTable then |free| > 1 && free' == free[2..] && tables' == tables + {free[1]}
    else |free| > 0 && free' == free[1..] && tables' == tables
  }

  lemma TakeOne(free0: seq<int>, tables0: set<int>, free: seq<int>, tables: set<int>, free': seq<int>,
                tables': set<int>, frames: seq<int>, newTable: bool)
    requires FramesTaken(free0, tables0, free, tables, frames) && OneTaken(free, tables, free', tables', newTable)
    requires NoDuplicates(free) && AllInRange(free) && forall k :: 0 <= k < |free| ==> free[k] !in tables
    ensures FramesTaken(free0, tables0, free', tables', frames + [free[0]]) && tables <= tables'
  {
    assert free[0] !in free' && free[0] !in tables';
    assert forall f :: f in free' ==> f in free;
  }

  lemma AllocThenMap(p: Phys, p1: Phys, p2: Phys, dirs: set<int>, tables: set<int>, tables': set<int>, d: int,
                     page: Page, window: Page, slot: u32)
    requires |p| == |p1| == |p2| == FRAMES && (forall d :: d in dirs ==> 0 < d < FRAMES) && d in dirs
    requires Shared(Pdi(window)) && forall d' :: d' in dirs ==> SharesTable(p, d, d', Pdi(window))
    requires SameDirectories(p, p1, dirs) && SameEntries(p, p1, dirs, {window}) && SameFrames(p, p1, tables)
    requires tables <= tables'
    requires OnlyPages(p1, p2, dirs, d, {page, window}) && OnlySlot(p1, p2, dirs, d, Pdi(page), slot)
    requires SameFrames(p1, p2, dirs + tables')
    ensures OnlyPages(p, p2, dirs, d, {page, window}) && OnlySlot(p, p2, dirs, d, Pdi(page), slot)
    ensures SameFrames(p, p2, dirs + tables')
  {
    hide EntryAt, Pdi, Shared, SharesTable, OnlyPages, SameEntries;
    WindowOnly(p, p1, dirs, d, window);
    PagesAlong(p, p1, p2, dirs, d, {window}, {page, window});
    assert {window} + {page, window} == {page, window};
  }

  /** What the allocation of one page changes. */
  ghost predicate OneAllocated(p: Phys, p': Phys, dirs: set<int>, d: int, page: Page, flags: FlagBits, slot: u32,
                               window: Page, free: seq<int>, tables: set<int>, free': seq<int>, tables': set<int>)
    requires |p| == |p'| == FRAMES && (forall d :: d in dirs ==> 0 < d < FRAMES) && d in dirs
  {
    var pde := p[d][Pdi(page)];
    && AllInRange(free) && OneTaken(free, tables, free', tables', !Present(pde))
    && !Present(EntryAt(p, d, page)) && EntryAt(p', d, page) == CreateEntry(Address(free[0]), flags)
    && OnlyPages(p, p', dirs, d, {page, window}) && OnlySlot(p, p', dirs, d, Pdi(page), slot)
    && Present(slot) && (Present(pde) ==> slot == pde) && (UserBit(flags) ==> UserBit(slot))
    && SameFrames(p, p', dirs + tables')
  }

  /** Allocates a frame for a page. The first page of the self-map, behind all others, is mapped. */
  method AllocPage(m: Memory, page: Page, flags: FlagBits) returns (r: Outcome<()>, ghost slot: u32)
    requires m.Valid() && page <= TABLES_PAGE && page != m.window
    modifies m`freeFramePaddr, m`usedFrames, m`free, m`tables, m.phys
    ensures m.Valid()
    ensures var pde, free := old(m.Ram())[m.Dir()][Pdi(page)], old(m.free);
      r.Panic? <==>
        || free == [] || Present(EntryAt(old(m.Ram()), m.Dir(), page))
        || (if Present(pde) then UserBit(flags) && !UserBit(pde) else |free| == 1)
    ensures r.Return? ==>
      OneAllocated(old(m.Ram()), m.Ram(), m.dirs, m.Dir(), page, flags, slot, m.window, old(m.free), old(m.tables),
        m.free, m.tables)
  {
    hide FrameOf, Pdi, Pti, Address, Present, CreateEntry, Layout, FreeChain, EntryAt, Shared, OnlyPages, SameEntries,
      SameDirectories, SameFrames, OnlySlot, SlotAfter, UserBit;
    ghost var p0, free0, tables0 := m.Ram(), m.free, m.tables;
    slot := 0;
    m.Inside();
    var frame := m.AllocFrame();
    if frame.Panic? {
      return Panic, 0;
    }
    ghost var p1, free1 := m.Ram(), m.free;
    SlotOrder(page, page);
    SameSlot(p0, p1, m.dirs, m.Dir(), Pdi(page));
    if page == TABLES_PAGE {
      TablesMapped(p0, m.dirs, m.tables, free0, Pdi(m.window), m.Dir());
      TablesMapped(p1, m.dirs, m.tables, m.free, Pdi(m.window), m.Dir());
    } else {
      SameEntry(p0, p1, m.dirs, m.Dir(), page, m.window);
    }
    var mapped := m.MapPage(page, frame.value, flags);
    if mapped != Return(false) {
      return Panic, 0;
    }
    slot := SlotAfter(p1[m.Dir()][Pdi(page)], free1, flags);
    SlotAfterBits(p1[m.Dir()][Pdi(page)], free1, flags);
    WindowShared(p0, m.dirs, tables0, free0, Pdi(m.window), m.Dir());
    AllocThenMap(p0, p1, m.Ram(), m.dirs, tables0, m.tables, m.Dir(), page, m.window, slot);
    r := Return(());
  }

  lemma TablesMapped(p: Phys, dirs: set<int>, tables: set<int>, free: seq<int>, wi: Index, d: int)
    requires Layout(p, dirs, tables, free, wi) && d in dirs
    ensures |p| == FRAMES && 0 < d < FRAMES && Present(EntryAt(p, d, TABLES_PAGE))
  {
    hide TablesApart, TablesKnown, FramesApart;
    PartsPage(1023, 0);
    SelfMap(p, d, 0);
  }

  lemma SameSlot(p: Phys, p': Phys, dirs: set<int>, d: int, i: Index)
    requires |p| == |p'| == FRAMES && (forall d :: d in dirs ==> 0 < d < FRAMES) && d in dirs
    requires SameDirectories(p, p', dirs)
    ensures p'[d][i] == p[d][i]
  {
  }

  lemma RangeSlots(window: Page, page: nat, count: nat, i: nat)
    requires page + i <= TABLES_PAGE && i < count && window !in Pages(page, count)
    ensures window != page + i && window !in Pages(page + i, count - i) && window !in Pages(page, i + 1)
    ensures page + i < TABLES_PAGE ==> Pdi(page + i) < 1023
  {
    assert page + i in Pages(page, count);
  }

  /** The range ends before the self-map, is not mapped and not refused, and the free frames suffice
      for its pages and tables. */
  ghost predicate Allocatable(p: Phys, d: int, page: nat, count: nat, flags: FlagBits, free: nat)
    requires |p| == FRAMES && 0 < d < FRAMES
  {
    page + count <= TABLES_PAGE && Unmapped(p, d, page, count) && CanMap(p, d, page, count, flags, free - count)
  }

  lemma CannotAlloc(p: Phys, d: int, page: nat, count: nat, flags: FlagBits, free: nat)
    requires |p| == FRAMES && 0 < d < FRAMES && 0 < count && page <= TABLES_PAGE
    requires || free == 0 || Present(EntryAt(p, d, page))
             || (if Present(p[d][Pdi(page)]) then UserBit(flags) && !UserBit(p[d][Pdi(page)]) else free == 1)
    ensures !Allocatable(p, d, page, count, flags, free)
  {
    hide FrameOf, Pdi, EntryAt, Present, UserBit, Missing, Refused;
    if free > 0 && !Present(EntryAt(p, d, page)) && page + count <= TABLES_PAGE {
      CannotMap(p, d, page, count, flags, free - count);
    }
  }

  lemma AllocatableStep(p: Phys, p': Phys, dirs: set<int>, d: int, page: nat, count: nat, flags: FlagBits,
                        free: seq<int>, tables: set<int>, free': seq<int>, tables': set<int>, window: Page, slot: u32)
    requires |p| == |p'| == FRAMES && (forall d :: d in dirs ==> 0 < d < FRAMES) && d in dirs
    requires 0 < count && page < TABLES_PAGE && window !in Pages(page, count)
    requires OneTaken(free, tables, free', tables', !Present(p[d][Pdi(page)])) && !Present(EntryAt(p, d, page))
    requires OnlyPages(p, p', dirs, d, {page, window}) && OnlySlot(p, p', dirs, d, Pdi(page), slot)
    requires Present(slot) && (Present(p[d][Pdi(page)]) ==> slot == p[d][Pdi(page)])
    requires (UserBit(flags) ==> UserBit(slot))
    ensures Allocatable(p, d, page, count, flags, |free|) <==> Allocatable(p', d, page + 1, count - 1, flags, |free'|)
  {
    hide FrameOf, Pdi, EntryAt, Present, UserBit, CanMap, Unmapped, OnlyPages, OnlySlot;
    if page + count <= TABLES_PAGE {
      CanMapStep(p, p', dirs, d, page, count, flags, |free| - count, slot);
      StillUnmapped(p, p', dirs, d, page, count, window);
    }
  }

  /** The frames that stay free once a range has its pages and tables. */
  ghost function Spare(p: Phys, d: int, page: nat, count: nat, free: nat): int
    requires |p| == FRAMES && 0 < d < FRAMES
  {
    if page + count <= TABLES_PAGE then free - count - |Missing(p, d, page, count)| else 0
  }

  lemma SpareStep(p: Phys, p': Phys, dirs: set<int>, d: int, page: nat, count: nat, free: seq<int>, tables: set<int>,
                  free': seq<int>, tables': set<int>, slot: u32)
    requires |p| == |p'| == FRAMES && (forall d :: d in dirs ==> 0 < d < FRAMES) && d in dirs && 0 < count
    requires page < TABLES_PAGE
    requires OneTaken(free, tables, free', tables', !Present(p[d][Pdi(page)]))
    requires OnlySlot(p, p', dirs, d, Pdi(page), slot) && Present(slot)
    ensures Spare(p', d, page + 1, count - 1, |free'|) == Spare(p, d, page, count, |free|)
  {
    hide Pdi, Present, Missing, OnlySlot;
    if page + count <= TABLES_PAGE { MissingStep(p, p', dirs, d, page, count, slot); }
  }

  lemma SpareNone(p: Phys, d: int, page: nat, free: nat)
    requires |p| == FRAMES && 0 < d < FRAMES && page <= TABLES_PAGE
    ensures Spare(p, d, page, 0, free) == free
  {
  }

  lemma OneMoreEntry(frames: seq<int>, flags: FlagBits, f: int)
    requires AllInRange(frames) && 0 < f < FRAMES
    ensures AllInRange(frames + [f])
    ensures EntriesFor(frames + [f], flags) == EntriesFor(frames, flags) + [CreateEntry(Address(f), flags)]
  {
    hide CreateEntry, Address;
  }

  lemma NoEntries(flags: FlagBits)
    ensures EntriesFor([], flags) == []
  {
  }

  lemma NothingToAllocate(p: Phys, d: int, page: nat, flags: FlagBits, free: nat)
    requires |p| == FRAMES && 0 < d < FRAMES && page <= TABLES_PAGE
    ensures Allocatable(p, d, page, 0, flags, free)
  {
  }

  lemma NoneTaken(free: seq<int>, tables: set<int>)
    ensures FramesTaken(free, tables, free, tables, [])
  {
  }

  /** A range of pages has the given frames, which were free. */
  ghost predicate RangeAllocated(p: Phys, p': Phys, dirs: set<int>, d: int, page: nat, flags: FlagBits,
                                 frames: seq<int>, window: Page, free: seq<int>, tables: set<int>, free': seq<int>,
                                 tables': set<int>)
    requires |p| == |p'| == FRAMES && (forall d :: d in dirs ==> 0 < d < FRAMES) && d in dirs
  {
    && page + |frames| <= TABLES_PAGE && AllInRange(frames)
    && RangeMapped(p, p', dirs, d, page, EntriesFor(frames, flags), window)
    && SameFrames(p, p', dirs + tables') && FramesTaken(free, tables, free', tables', frames)
  }

  lemma NoneAllocated(p: Phys, dirs: set<int>, d: int, page: nat, flags: FlagBits, window: Page, free: seq<int>,
                      tables: set<int>)
    requires |p| == FRAMES && (forall d :: d in dirs ==> 0 < d < FRAMES) && d in dirs && page <= TABLES_PAGE
    ensures RangeAllocated(p, p, dirs, d, page, flags, [], window, free, tables, free, tables)
  {
    hide RangeMapped, FramesTaken;
    NothingMapped(p, dirs, d, page, window);
    NoEntries(flags);
    NoneTaken(free, tables);
  }

  /** One more page of the range is allocated. */
  lemma AllocatedStep(p: Phys, p1: Phys, p2: Phys, dirs: set<int>, d: int, page: nat, count: nat, flags: FlagBits,
                      frames: seq<int>, slot: u32, window: Page, free: seq<int>, tables: set<int>, free1: seq<int>,
                      tables1: set<int>, free2: seq<int>, tables2: set<int>)
    requires |p| == |p1| == |p2| == FRAMES && (forall d :: d in dirs ==> 0 < d < FRAMES) && d in dirs
    requires |frames| < count && page + |frames| < TABLES_PAGE && window !in Pages(page, count)
    requires NoDuplicates(free1) && forall k :: 0 <= k < |free1| ==> free1[k] !in tables1
    requires RangeAllocated(p, p1, dirs, d, page, flags, frames, window, free, tables, free1, tables1)
    requires OneAllocated(p1, p2, dirs, d, page + |frames|, flags, slot, window, free1, tables1, free2, tables2)
    ensures free1 != []
    ensures RangeAllocated(p, p2, dirs, d, page, flags, frames + [free1[0]], window, free, tables, free2, tables2)
    ensures var i, n := page + |frames|, count - |frames|;
      && (Allocatable(p1, d, i, n, flags, |free1|) <==> Allocatable(p2, d, i + 1, n - 1, flags, |free2|))
      && Spare(p2, d, i + 1, n - 1, |free2|) == Spare(p1, d, i, n, |free1|)
  {
    hide Pdi, Present, CreateEntry, EntryAt, OnlyPages, OnlySlot, UserBit, Allocatable, RangeMapped, Pages, EntriesFor,
      FramesTaken, SameFrames, Spare, NoDuplicates;
    RangeSlots(window, page, count, |frames|);
    AllocatableStep(p1, p2, dirs, d, page + |frames|, count - |frames|, flags, free1, tables1, free2, tables2, window,
      slot);
    SpareStep(p1, p2, dirs, d, page + |frames|, count - |frames|, free1, tables1, free2, tables2, slot);
    RangeGrows(p, p1, p2, dirs, d, page, EntriesFor(frames, flags), window, CreateEntry(Address(free1[0]), flags),
      slot);
    OneMoreEntry(frames, flags, free1[0]);
    TakeOne(free, tables, free1, tables1, free2, tables2, frames, !Present(p1[d][Pdi(page + |frames|)]));
    FramesAlong(p, p1, p2, dirs + tables1, dirs + tables2);
  }

  /** Allocates frames for the pages of a range. It panics exactly if some page is mapped
      already, or the range needs more frames than are free, or it is refused or reaches the self-map. */
  method AllocPages(m: Memory, page: Page, flags: FlagBits, count: nat) returns (r: Outcome<()>, ghost frames: seq<int>)
    requires m.Valid() && page <= TABLES_PAGE && m.window !in Pages(page, count)
    modifies m`freeFramePaddr, m`usedFrames, m`free, m`tables, m.phys
    ensures r.Return? ==> m.Valid()
    ensures r.Return? <==> Allocatable(old(m.Ram()), m.Dir(), page, count, flags, |old(m.free)|)
    ensures r.Return? ==>
      && page + count <= TABLES_PAGE && |frames| == count && AllInRange(frames)
      && |m.free| == Spare(old(m.Ram()), m.Dir(), page, count, |old(m.free)|)
      && RangeMapped(old(m.Ram()), m.Ram(), m.dirs, m.Dir(), page, EntriesFor(frames, flags), m.window)
      && SameFrames(old(m.Ram()), m.Ram(), m.dirs + m.tables)
      && FramesTaken(old(m.free), old(m.tables), m.free, m.tables, frames)
  {
    hide FrameOf, Pdi, Pti, Present, CreateEntry, Layout, FreeChain, EntryAt, Shared, OnlySlot, UserBit, Allocatable,
      RangeAllocated, Pages, OneAllocated, NoDuplicates, Spare, FreeUnmapped;
    ghost var p0 := m.Ram();
    r, frames := Return(()), [];
    m.Inside();
    NoneAllocated(p0, m.dirs, m.Dir(), page, flags, m.window, m.free, m.tables);
    var i := 0;
    while i < count
      invariant 0 <= i <= count && page + i <= TABLES_PAGE && m.Valid() && |frames| == i && |m.Ram()| == FRAMES
      invariant RangeAllocated(p0, m.Ram(), m.dirs, m.Dir(), page, flags, frames, m.window, old(m.free), old(m.tables),
        m.free, m.tables)
      invariant Allocatable(p0, m.Dir(), page, count, flags, |old(m.free)|)
           <==> Allocatable(m.Ram(), m.Dir(), page + i, count - i, flags, |m.free|)
      invariant Spare(m.Ram(), m.Dir(), page + i, count - i, |m.free|) == Spare(p0, m.Dir(), page, count, |old(m.free)|)
    {
      ghost var p1, free1, tables1 := m.Ram(), m.free, m.tables;
      m.Inside();
      LayoutFree(p1, m.dirs, tables1, free1, Pdi(m.window));
      RangeSlots(m.window, page, count, i);
      TablesMapped(p1, m.dirs, tables1, free1, Pdi(m.window), m.Dir());
      var ok;
      ghost var slot;
      ok, slot := AllocPage(m, page + i, flags);
      if ok.Panic? {
        CannotAlloc(p1, m.Dir(), page + i, count - i, flags, |free1|);
        return Panic, [];
      }
      m.Inside();
      AllocatedStep(p0, p1, m.Ram(), m.dirs, m.Dir(), page, count, flags, frames, slot, m.window, old(m.free),
        old(m.tables), free1, tables1, m.free, m.tables);
      frames := frames + [free1[0]];
      i := i + 1;
    }
    m.Inside();
    NothingToAllocate(m.Ram(), m.Dir(), page + count, flags, |m.free|);
    SpareNone(m.Ram(), m.Dir(), page + count, |m.free|);
    AllocatedParts(p0, m.Ram(), m.dirs, m.Dir(), page, flags, frames, m.window, old(m.free), old(m.tables), m.free,
      m.tables);
  }

  lemma AllocatedParts(p: Phys, p': Phys, dirs: set<int>, d: int, page: nat, flags: FlagBits, frames: seq<int>,
                       window: Page, free: seq<int>, tables: set<int>, free': seq<int>, tables': set<int>)
    requires |p| == |p'| == FRAMES && (forall d :: d in dirs ==> 0 < d < FRAMES) && d in dirs
    requires RangeAllocated(p, p', dirs, d, page, flags, frames, window, free, tables, free', tables')
    ensures page + |frames| <= TABLES_PAGE && AllInRange(frames)
    ensures RangeMapped(p, p', dirs, d, page, EntriesFor(frames, flags), window)
    ensures SameFrames(p, p', dirs + tables') && FramesTaken(free, tables, free', tables', frames)
  {
    hide RangeMapped, FramesTaken, SameFrames;
  }

  // ---------- freeing ----------

  ghost predicate Mapped(p: Phys, d: int, page: nat, count: nat)
    requires |p| == FRAMES && 0 < d < FRAMES && page + count <= TABLES_PAGE
  {
    forall q: Page :: page <= q < page + count ==> Present(EntryAt(p, d, q))
  }

  /** The frames behind a range of pages, the last one first. */
  ghost function Backing(p: Phys, d: int, page: nat, count: nat): (frames: seq<int>)
    requires |p| == FRAMES && 0 < d < FRAMES && page + count <= TABLES_PAGE
  {
    seq(count, k requires 0 <= k < count => FrameOf(EntryAt(p, d, page + count - 1 - k)))
  }

  /** The frame behind a page, if it is mapped, is not used by paging and by no other page. */
  ghost predicate OwnPage(p: Phys, dirs: set<int>, d: int, tables: set<int>, free: seq<int>, q: Page, window: Page)
    requires |p| == FRAMES && (forall d :: d in dirs ==> 0 < d < FRAMES) && 0 < d < FRAMES
  {
    Present(EntryAt(p, d, q)) ==>
      var f := FrameOf(EntryAt(p, d, q));
      0 < f && f !in dirs && f !in tables && f !in free && OwnFrame(p, dirs, d, q, window)
  }

  /** The mapped pages of a range have frames of their own. */
  ghost predicate Freeable(p: Phys, dirs: set<int>, d: int, tables: set<int>, free: seq<int>, page: nat, count: nat,
                           window: Page)
    requires |p| == FRAMES && (forall d :: d in dirs ==> 0 < d < FRAMES) && 0 < d < FRAMES
    requires page + count <= TABLES_PAGE
  {
    forall q: Page :: page <= q < page + count ==> OwnPage(p, dirs, d, tables, free, q, window)
  }

  /** Pages of such a range have different frames. */
  lemma FramesDiffer(p: Phys, dirs: set<int>, d: int, tables: set<int>, free: seq<int>, base: nat, n: nat, window: Page,
                     q: Page, r: Page)
    requires |p| == FRAMES && (forall d :: d in dirs ==> 0 < d < FRAMES) && d in dirs && base + n <= TABLES_PAGE
    requires Freeable(p, dirs, d, tables, free, base, n, window) && window !in Pages(base, n)
    requires base <= q < base + n && base <= r < base + n && q != r && Present(EntryAt(p, d, q))
    requires Present(EntryAt(p, d, r))
    ensures FrameOf(EntryAt(p, d, q)) != FrameOf(EntryAt(p, d, r))
  {
    hide FrameOf, Present, EntryAt, Pdi, SharesTable;
    assert OwnPage(p, dirs, d, tables, free, q, window);
    assert r in Pages(base, n);
    SlotOrder(r, r);
  }

  /** From `p` to `p'` the mapped range was unmapped, and its frames were put on the free list. */
  ghost predicate RangeFreed(p: Phys, p': Phys, dirs: set<int>, d: int, tables: set<int>, free: seq<int>,
                             free': seq<int>, page: nat, count: nat, window: Page)
    requires |p| == |p'| == FRAMES && (forall d :: d in dirs ==> 0 < d < FRAMES) && d in dirs
    requires page + count <= TABLES_PAGE
  {
    && Mapped(p, d, page, count) && (forall q: Page :: page <= q < page + count ==> EntryAt(p', d, q) == 0)
    && OnlyPages(p, p', dirs, d, Pages(page, count) + {window}) && SameDirectories(p, p', dirs)
    && SameFrames(p, p', tables + SetOf(Backing(p, d, page, count)))
    && free' == Backing(p, d, page, count) + free
  }

  ghost function SetOf(s: seq<int>): set<int> {
    set x | x in s
  }

  lemma NothingFreed(p: Phys, dirs: set<int>, d: int, tables: set<int>, free: seq<int>, page: nat, window: Page)
    requires |p| == FRAMES && (forall d :: d in dirs ==> 0 < d < FRAMES) && d in dirs && page <= TABLES_PAGE
    ensures RangeFreed(p, p, dirs, d, tables, free, free, page, 0, window)
  {
  }

  lemma RangeFreedStep(p: Phys, p1: Phys, p2: Phys, dirs: set<int>, d: int, tables: set<int>, free: seq<int>,
                       free1: seq<int>, free2: seq<int>, page: nat, i: nat, window: Page)
    requires |p| == |p1| == |p2| == FRAMES && (forall d :: d in dirs ==> 0 < d < FRAMES) && d in dirs
    requires page + i < TABLES_PAGE
    requires window !in Pages(page, i + 1)
    requires RangeFreed(p, p1, dirs, d, tables, free, free1, page, i, window)
    requires Present(EntryAt(p1, d, page + i)) && EntryAt(p2, d, page + i) == 0
    requires OnlyPages(p1, p2, dirs, d, {page + i, window}) && SameDirectories(p1, p2, dirs)
    requires var f := FrameOf(EntryAt(p1, d, page + i)); SameFrames(p1, p2, tables + {f}) && free2 == [f] + free1
    ensures RangeFreed(p, p2, dirs, d, tables, free, free2, page, i + 1, window)
  {
    hide EntryAt, Pdi, Present, FrameOf, OnlyPages, Shared;
    var q0: Page := page + i;
    var f := FrameOf(EntryAt(p1, d, q0));
    RangeKeeps(p, p1, dirs, d, page, i, window, q0);
    assert Backing(p, d, page, i + 1) == [f] + Backing(p, d, page, i);
    PagesAlong(p, p1, p2, dirs, d, Pages(page, i) + {window}, {q0, window});
    assert Pages(page, i) + {window} + {q0, window} == Pages(page, i + 1) + {window};
    forall q: Page | page <= q < page + i ensures EntryAt(p2, d, q) == 0 {
      assert q in Pages(page, i + 1) && q !in {q0, window};
      KeptPage(p1, p2, dirs, d, {q0, window}, q);
    }
  }

  lemma KeptPage(p: Phys, p': Phys, dirs: set<int>, d: int, pages: set<Page>, q: Page)
    requires |p| == |p'| == FRAMES && (forall d :: d in dirs ==> 0 < d < FRAMES) && d in dirs && q < TABLES_PAGE
    requires q !in pages
    requires OnlyPages(p, p', dirs, d, pages)
    ensures EntryAt(p', d, q) == EntryAt(p, d, q)
  {
    hide EntryAt, Pdi, Shared;
    SlotOrder(q, q);
  }

  /** The pages behind the part already done are as before. */
  lemma RangeKeeps(p: Phys, p': Phys, dirs: set<int>, d: int, page: nat, i: nat, window: Page, q: Page)
    requires |p| == |p'| == FRAMES && (forall d :: d in dirs ==> 0 < d < FRAMES) && d in dirs
    requires page + i <= q < TABLES_PAGE && q != window
    requires OnlyPages(p, p', dirs, d, Pages(page, i) + {window})
    ensures EntryAt(p', d, q) == EntryAt(p, d, q)
  {
    hide EntryAt, Pdi, Shared, OnlyPages;
    KeptPage(p, p', dirs, d, Pages(page, i) + {window}, q);
  }

  lemma NextFreeable(p: Phys, p1: Phys, dirs: set<int>, d: int, tables: set<int>, free: seq<int>, free1: seq<int>,
                     page: nat, count: nat, i: nat, window: Page)
    requires |p| == |p1| == FRAMES && (forall d :: d in dirs ==> 0 < d < FRAMES) && d in dirs
    requires page + count <= TABLES_PAGE && i < count
    requires window !in Pages(page, count) && RangeFreed(p, p1, dirs, d, tables, free, free1, page, i, window)
    requires Freeable(p, dirs, d, tables, free, page, count, window)
    ensures EntryAt(p1, d, page + i) == EntryAt(p, d, page + i) && OwnPage(p1, dirs, d, tables, free1, page + i, window)
  {
    hide EntryAt, Pdi, Present, FrameOf, OnlyPages, Shared, OwnFrame, SameFrames, SameDirectories, Freeable;
    var q: Page := page + i;
    assert q in Pages(page, count);
    RangeKeeps(p, p1, dirs, d, page, i, window, q);
    NotPresentZero();
    SlotOrder(q, q);
    if Present(EntryAt(p, d, q)) {
      ItsOwn(p, dirs, d, tables, free, page, count, window, q);
      OwnKept(p, p1, dirs, d, Pages(page, i) + {window}, q, window);
      NotBacking(p, dirs, d, tables, free, page, count, page, i, q, window);
    }
  }

  lemma ItsOwn(p: Phys, dirs: set<int>, d: int, tables: set<int>, free: seq<int>, page: nat, count: nat, window: Page,
               q: Page)
    requires |p| == FRAMES && (forall d :: d in dirs ==> 0 < d < FRAMES) && 0 < d < FRAMES
    requires page + count <= TABLES_PAGE
    requires Freeable(p, dirs, d, tables, free, page, count, window) && page <= q < page + count
    requires Present(EntryAt(p, d, q))
    ensures OwnFrame(p, dirs, d, q, window)
    ensures var f := FrameOf(EntryAt(p, d, q)); 0 < f && f !in dirs && f !in tables && f !in free
  {
    hide FrameOf, Present, EntryAt, OwnFrame;
    assert OwnPage(p, dirs, d, tables, free, q, window);
  }

  /** The body of the loop: unmaps a page and frees its frame. */
  method FreeMapped(m: Memory, page: Page) returns (r: Outcome<()>)
    requires m.Valid() && Pdi(page) < 1023 && page != m.window
    requires OwnPage(m.Ram(), m.dirs, m.Dir(), m.tables, m.free, page, m.window)
    modifies m`freeFramePaddr, m`usedFrames, m`free, m.phys
    ensures m.Valid()
    ensures r.Return? <==> Present(EntryAt(old(m.Ram()), m.Dir(), page))
    ensures r.Return? ==>
      var f := FrameOf(EntryAt(old(m.Ram()), m.Dir(), page));
      && m.free == [f] + old(m.free) && EntryAt(m.Ram(), m.Dir(), page) == 0
      && OnlyPages(old(m.Ram()), m.Ram(), m.dirs, m.Dir(), {page, m.window})
      && SameDirectories(old(m.Ram()), m.Ram(), m.dirs) && SameFrames(old(m.Ram()), m.Ram(), m.tables + {f})
  {
    hide FrameOf, Pdi, Pti, Address, Present, Layout, FreeChain, EntryAt, Shared, OnlyPages, SameEntries,
      SameDirectories, SameFrames;
    ghost var p0 := m.Ram();
    m.Inside();
    var missing, entry := m.UnmapPage(page);
    if missing {
      return Panic;
    }
    ghost var p1 := m.Ram();
    EntryRoundTrip(entry);
    NotPresentZero();
    m.Inside();
    WindowShared(p1, m.dirs, m.tables, m.free, Pdi(m.window), m.Dir());
    OwnUnmapped(p0, p1, m.dirs, m.Dir(), page, m.window);
    m.FreeFrame(Address(FrameOf(entry)));
    UnmapThenFree(p0, p1, m.Ram(), m.dirs, m.tables, m.Dir(), page, m.window, FrameOf(entry));
    r := Return(());
  }

  lemma UnmapThenFree(p: Phys, p1: Phys, p2: Phys, dirs: set<int>, tables: set<int>, d: int, page: Page, window: Page,
                      f: int)
    requires |p| == |p1| == |p2| == FRAMES && (forall d :: d in dirs ==> 0 < d < FRAMES) && d in dirs
    requires OnlyPages(p, p1, dirs, d, {page}) && SameDirectories(p, p1, dirs) && SameFrames(p, p1, tables)
    requires SameDirectories(p1, p2, dirs) && SameEntries(p1, p2, dirs, {window}) && SameFrames(p1, p2, tables + {f})
    requires page != window && Pdi(page) < 1023 && Shared(Pdi(window))
    requires forall d' :: d' in dirs ==> SharesTable(p1, d, d', Pdi(window))
    ensures OnlyPages(p, p2, dirs, d, {page, window}) && SameDirectories(p, p2, dirs) && SameFrames(p, p2, tables + {f})
    ensures EntryAt(p2, d, page) == EntryAt(p1, d, page)
  {
    hide EntryAt, Pdi, Shared, SharesTable, OnlyPages;
    WindowOnly(p1, p2, dirs, d, window);
    PagesAlong(p, p1, p2, dirs, d, {page}, {window});
    assert {page} + {window} == {page, window};
  }

  /** Unmaps a range of pages and frees their frames; panics exactly if a page is not mapped. */
  method FreePages(m: Memory, page: Page, count: nat) returns (r: Outcome<()>)
    requires m.Valid() && page + count <= TABLES_PAGE && m.window !in Pages(page, count)
    requires Freeable(m.Ram(), m.dirs, m.Dir(), m.tables, m.free, page, count, m.window)
    modifies m`freeFramePaddr, m`usedFrames, m`free, m.phys
    ensures m.Valid()
    ensures r.Return? <==> Mapped(old(m.Ram()), m.Dir(), page, count)
    ensures r.Return? ==>
      RangeFreed(old(m.Ram()), m.Ram(), m.dirs, m.Dir(), m.tables, old(m.free), m.free, page, count, m.window)
  {
    hide FrameOf, Pdi, Pti, Present, Layout, FreeChain, EntryAt, Shared, OnlyPages, SameDirectories, SameFrames,
      Freeable, RangeFreed, Mapped, Pages;
    ghost var p0 := m.Ram();
    m.Inside();
    NothingFreed(p0, m.dirs, m.Dir(), m.tables, m.free, page, m.window);
    var i := 0;
    while i < count
      invariant 0 <= i <= count && m.Valid() && |m.Ram()| == FRAMES
      invariant RangeFreed(p0, m.Ram(), m.dirs, m.Dir(), m.tables, old(m.free), m.free, page, i, m.window)
    {
      ghost var p1, free1 := m.Ram(), m.free;
      RangeSlots(m.window, page, count, i);
      NextFreeable(p0, p1, m.dirs, m.Dir(), m.tables, old(m.free), free1, page, count, i, m.window);
      var ok := FreeMapped(m, page + i);
      if ok.Panic? {
        NotAllMapped(p0, m.Dir(), page, count, page + i);
        return Panic;
      }
      m.Inside();
      RangeFreedStep(p0, p1, m.Ram(), m.dirs, m.Dir(), m.tables, old(m.free), free1, m.free, page, i, m.window);
      i := i + 1;
    }
    FreedWasMapped(p0, m.Ram(), m.dirs, m.Dir(), m.tables, old(m.free), m.free, page, count, m.window);
    r := Return(());
  }

  lemma NotAllMapped(p: Phys, d: int, page: nat, count: nat, q: Page)
    requires |p| == FRAMES && 0 < d < FRAMES && page + count <= TABLES_PAGE
    requires page <= q < page + count && !Present(EntryAt(p, d, q))
    ensures !Mapped(p, d, page, count)
  {
  }

  lemma FreedWasMapped(p: Phys, p': Phys, dirs: set<int>, d: int, tables: set<int>, free: seq<int>, free': seq<int>,
                       page: nat, count: nat, window: Page)
    requires |p| == |p'| == FRAMES && (forall d :: d in dirs ==> 0 < d < FRAMES) && d in dirs
    requires page + count <= TABLES_PAGE
    requires RangeFreed(p, p', dirs, d, tables, free, free', page, count, window)
    ensures Mapped(p, d, page, count)
  {
  }

  lemma NotBacking(p: Phys, dirs: set<int>, d: int, tables: set<int>, free: seq<int>, base: nat, n: nat, page: nat,
                   len: nat, q: Page, window: Page)
    requires |p| == FRAMES && (forall d :: d in dirs ==> 0 < d < FRAMES) && d in dirs && base + n <= TABLES_PAGE
    requires base <= page && page + len <= base + n && window !in Pages(base, n)
    requires Freeable(p, dirs, d, tables, free, base, n, window) && Mapped(p, d, page, len)
    requires base <= q < base + n && !(page <= q < page + len)
    ensures Present(EntryAt(p, d, q)) ==> FrameOf(EntryAt(p, d, q)) !in Backing(p, d, page, len)
  {
    hide EntryAt, Present, FrameOf, Freeable, Pages;
    if Present(EntryAt(p, d, q)) {
      forall k | 0 <= k < len ensures Backing(p, d, page, len)[k] != FrameOf(EntryAt(p, d, q)) {
        var r: Page := page + len - 1 - k;
        assert Present(EntryAt(p, d, r));
        FramesDiffer(p, dirs, d, tables, free, base, n, window, q, r);
      }
    }
  }
}
