/** The loops of the address-space system calls (src/memory/mem.c): checking, unmapping and mapping
    ranges of user pages in the current space. */
module MapLoops {
  import opened Words
  import opened Entries
  import opened PageTables
  import opened Paging
  import opened PageRanges

  /** From `p` to `p'` the range got these entries, all tables being there before. */
  ghost predicate RangeWritten(p: Phys, p': Phys, dirs: set<int>, d: int, page: nat, entries: seq<u32>)
    requires |p| == |p'| == FRAMES && (forall d :: d in dirs ==> 0 < d < FRAMES) && d in dirs
    requires page + |entries| <= TABLES_PAGE
  {
    && (forall k :: 0 <= k < |entries| ==> EntryAt(p', d, page + k) == entries[k])
    && OnlyPages(p, p', dirs, d, Pages(page, |entries|))
    && SameDirectories(p, p', dirs) && SameFrames(p, p', TablesOf(p, d))
  }

  lemma NothingWritten(p: Phys, dirs: set<int>, d: int, page: nat)
    requires |p| == FRAMES && (forall d :: d in dirs ==> 0 < d < FRAMES) && d in dirs && page <= TABLES_PAGE
    ensures RangeWritten(p, p, dirs, d, page, [])
  {
  }

  lemma RangeWrittenStep(p: Phys, p1: Phys, p2: Phys, dirs: set<int>, d: int, page: nat, entries: seq<u32>, e: u32)
    requires |p| == |p1| == |p2| == FRAMES && (forall d :: d in dirs ==> 0 < d < FRAMES) && d in dirs
    requires page + |entries| < TABLES_PAGE
    requires RangeWritten(p, p1, dirs, d, page, entries)
    requires EntryAt(p2, d, page + |entries|) == e && OnlyPages(p1, p2, dirs, d, {page + |entries|})
    requires SameDirectories(p1, p2, dirs) && SameFrames(p1, p2, TablesOf(p1, d))
    ensures RangeWritten(p, p2, dirs, d, page, entries + [e]) && TablesOf(p1, d) == TablesOf(p, d)
  {
    hide EntryAt, Pdi, OnlyPages, SameDirectories, SameFrames, TablesOf;
    var n := |entries|;
    TwoWrites(p, p1, p2, dirs, d, Pages(page, n), {page + n});
    SameTables(p, p1, dirs, d);
    assert Pages(page, n + 1) == Pages(page, n) + {page + n};
    forall k | 0 <= k < n + 1 ensures EntryAt(p2, d, page + k) == (entries + [e])[k] {
      if k < n { KeptPage(p1, p2, dirs, d, {page + n}, page + k); }
    }
  }

  lemma SameTables(p: Phys, p': Phys, dirs: set<int>, d: int)
    requires |p| == |p'| == FRAMES && (forall d :: d in dirs ==> 0 < d < FRAMES) && d in dirs
    requires SameDirectories(p, p', dirs)
    ensures TablesOf(p', d) == TablesOf(p, d)
  {
  }

  // ---------- unmapping ----------

  ghost function Zeroed(n: nat): (z: seq<u32>)
    ensures |z| == n
  {
    seq(n, _ => 0)
  }

  ghost function EntriesAt(p: Phys, d: int, page: nat, n: nat): (entries: seq<u32>)
    requires |p| == FRAMES && 0 < d < FRAMES && page + n <= TABLES_PAGE
    ensures |entries| == n
  {
    seq<u32>(n, k requires 0 <= k < n => EntryAt(p, d, page + k))
  }

  /** The frame addresses in entries. */
  ghost function Paddrs(entries: seq<u32>): (paddrs: seq<u32>)
    ensures |paddrs| == |entries|
  {
    seq(|entries|, k requires 0 <= k < |entries| => Address(FrameOf(entries[k])))
  }

  /** The loops that unmap a range of mapped pages: a transfer saves the entries, `syscall_virt_unmap`
      hands out the addresses of the frames. */
  method UnmapRange(m: Memory, page: Page, n: nat, out: array<u32>, framesOnly: bool)
    requires m.Valid() && page + n <= TABLES_PAGE && m.window !in Pages(page, n) && n <= out.Length
    requires Mapped(m.Ram(), m.Dir(), page, n)
    modifies m.phys, out
    ensures m.Valid() && out[n..] == old(out[n..])
    ensures var es := EntriesAt(old(m.Ram()), m.Dir(), page, n); out[..n] == if framesOnly then Paddrs(es) else es
    ensures RangeWritten(old(m.Ram()), m.Ram(), m.dirs, m.Dir(), page, Zeroed(n))
  {
    hide FrameOf, Pdi, Pti, Present, Layout, FreeChain, EntryAt, Shared, OnlyPages, SameDirectories, SameFrames, Mapped,
      Pages, RangeWritten, TablesOf, EntriesAt, Paddrs, Zeroed, FreeUnmapped, Address;
    ghost var p := m.Ram();
    m.Inside();
    NothingWritten(p, m.dirs, m.Dir(), page);
    NoneOut(p, m.Dir(), page);
    var i := 0;
    while i < n
      invariant 0 <= i <= n && m.Valid() && |m.Ram()| == FRAMES && out[n..] == old(out[n..])
      invariant var es := EntriesAt(p, m.Dir(), page, i); out[..i] == if framesOnly then Paddrs(es) else es
      invariant RangeWritten(p, m.Ram(), m.dirs, m.Dir(), page, Zeroed(i))
    {
      ghost var p1 := m.Ram();
      RangeSlots(m.window, page, n, i);
      NextMapped(p, p1, m.dirs, m.Dir(), page, n, i);
      var missing, entry := m.UnmapPage(page + i);
      out[i] := if framesOnly then Address(FrameOf(entry)) else entry;
      m.Inside();
      OneMoreOut(p, m.Dir(), page, i);
      RangeWrittenStep(p, p1, m.Ram(), m.dirs, m.Dir(), page, Zeroed(i), 0);
      i := i + 1;
    }
  }

  lemma NoneOut(p: Phys, d: int, page: nat)
    requires |p| == FRAMES && 0 < d < FRAMES && page <= TABLES_PAGE
    ensures Zeroed(0) == [] && EntriesAt(p, d, page, 0) == [] && Paddrs(EntriesAt(p, d, page, 0)) == []
  {
  }

  lemma OneMoreOut(p: Phys, d: int, page: nat, i: nat)
    requires |p| == FRAMES && 0 < d < FRAMES && page + i < TABLES_PAGE
    ensures Zeroed(i + 1) == Zeroed(i) + [0]
    ensures EntriesAt(p, d, page, i + 1) == EntriesAt(p, d, page, i) + [EntryAt(p, d, page + i)]
    ensures Paddrs(EntriesAt(p, d, page, i + 1)) ==
      Paddrs(EntriesAt(p, d, page, i)) + [Address(FrameOf(EntryAt(p, d, page + i)))]
  {
    hide EntryAt, Address, FrameOf;
  }

  lemma NextMapped(p: Phys, p1: Phys, dirs: set<int>, d: int, page: nat, n: nat, i: nat)
    requires |p| == |p1| == FRAMES && (forall d :: d in dirs ==> 0 < d < FRAMES) && d in dirs && page + n <= TABLES_PAGE
    requires i < n
    requires Mapped(p, d, page, n) && RangeWritten(p, p1, dirs, d, page, Zeroed(i))
    ensures EntryAt(p1, d, page + i) == EntryAt(p, d, page + i) && Present(EntryAt(p1, d, page + i))
  {
    hide EntryAt, Pdi, Present, OnlyPages;
    KeptPage(p, p1, dirs, d, Pages(page, i), page + i);
  }

  // ---------- mapping ----------

  /** State of a loop that maps pages: the first ones have their entries, new tables come from the
      free frames, and if no table is missing nothing but the entries changes. */
  ghost predicate MappedSoFar(p: Phys, p': Phys, dirs: set<int>, d: int, page: nat, entries: seq<u32>, n: nat,
                              window: Page, free: seq<int>, tables: set<int>, free': seq<int>, tables': set<int>)
    requires |p| == |p'| == FRAMES && (forall d :: d in dirs ==> 0 < d < FRAMES) && d in dirs && |entries| <= n
    requires page + n <= TABLES_PAGE
  {
    && RangeMapped(p, p', dirs, d, page, entries, window)
    && SameFrames(p, p', dirs + tables') && FramesTaken(free, tables, free', tables', [])
    && (Missing(p, d, page, n) == {} ==>
          RangeWritten(p, p', dirs, d, page, entries) && free' == free && tables' == tables)
  }

  lemma NoneMappedYet(p: Phys, dirs: set<int>, d: int, page: nat, n: nat, window: Page, free: seq<int>,
                      tables: set<int>)
    requires |p| == FRAMES && (forall d :: d in dirs ==> 0 < d < FRAMES) && d in dirs && page + n <= TABLES_PAGE
    ensures MappedSoFar(p, p, dirs, d, page, [], n, window, free, tables, free, tables)
  {
    hide RangeMapped, RangeWritten, FramesTaken, Missing;
    NothingMapped(p, dirs, d, page, window);
    NothingWritten(p, dirs, d, page);
    NoneTaken(free, tables);
  }

  /** What one `map_page` changes. */
  ghost predicate OneMapped(p: Phys, p': Phys, dirs: set<int>, d: int, page: Page, e: u32, slot: u32, window: Page,
                            free: seq<int>, tables: set<int>, free': seq<int>, tables': set<int>)
    requires |p| == |p'| == FRAMES && (forall d :: d in dirs ==> 0 < d < FRAMES) && d in dirs
  {
    var pde := p[d][Pdi(page)];
    && EntryAt(p', d, page) == e && OnlyPages(p, p', dirs, d, {page, window}) && SameFrames(p, p', dirs + tables')
    && OnlySlot(p, p', dirs, d, Pdi(page), slot) && Present(slot)
    && if Present(pde) then
         && slot == pde && free' == free && tables' == tables
         && SameFrames(p, p', TablesOf(p, d)) && OnlyPages(p, p', dirs, d, {page})
       else free != [] && free' == free[1..] && tables' == tables + {free[0]}
  }

  lemma MappedStep(p: Phys, p1: Phys, p2: Phys, dirs: set<int>, d: int, page: nat, entries: seq<u32>, n: nat,
                   window: Page, e: u32, slot: u32, free: seq<int>, tables: set<int>, free1: seq<int>,
                   tables1: set<int>, free2: seq<int>, tables2: set<int>)
    requires |p| == |p1| == |p2| == FRAMES && (forall d :: d in dirs ==> 0 < d < FRAMES) && d in dirs
    requires |entries| < n && page + n <= TABLES_PAGE && window !in Pages(page, n)
    requires MappedSoFar(p, p1, dirs, d, page, entries, n, window, free, tables, free1, tables1)
    requires OneMapped(p1, p2, dirs, d, page + |entries|, e, slot, window, free1, tables1, free2, tables2)
    ensures MappedSoFar(p, p2, dirs, d, page, entries + [e], n, window, free, tables, free2, tables2)
  {
    hide EntryAt, Pdi, Present, OnlyPages, RangeMapped, RangeWritten, SameFrames, OnlySlot, TablesOf, Missing,
      FramesTaken;
    RangeSlots(window, page, n, |entries|);
    RangeGrows(p, p1, p2, dirs, d, page, entries, window, e, slot);
    TakeTable(free, tables, free1, tables1, free2, tables2, !Present(p1[d][Pdi(page + |entries|)]));
    FramesAlong(p, p1, p2, dirs + tables1, dirs + tables2);
    if Missing(p, d, page, n) == {} {
      SlotPresent(p, p1, dirs, d, page, entries, n);
      SlotSame(p1, p2, dirs, d, Pdi(page + |entries|), slot);
      RangeWrittenStep(p, p1, p2, dirs, d, page, entries, e);
    }
  }

  lemma TakeTable(free0: seq<int>, tables0: set<int>, free: seq<int>, tables: set<int>, free': seq<int>,
                  tables': set<int>, newTable: bool)
    requires FramesTaken(free0, tables0, free, tables, [])
    requires if newTable then free != [] && free' == free[1..] && tables' == tables + {free[0]}
             else free' == free && tables' == tables
    ensures FramesTaken(free0, tables0, free', tables', []) && tables <= tables'
  {
  }

  lemma SlotPresent(p: Phys, p1: Phys, dirs: set<int>, d: int, page: nat, entries: seq<u32>, n: nat)
    requires |p| == |p1| == FRAMES && (forall d :: d in dirs ==> 0 < d < FRAMES) && d in dirs && |entries| < n
    requires page + n <= TABLES_PAGE
    requires Missing(p, d, page, n) == {} && RangeWritten(p, p1, dirs, d, page, entries)
    ensures Present(p1[d][Pdi(page + |entries|)])
  {
    hide EntryAt, Pdi, Present, OnlyPages, SameFrames, TablesOf;
    SlotOrder(page, page + |entries|);
    SlotOrder(page + |entries|, page + n - 1);
    assert Pdi(page + |entries|) !in Missing(p, d, page, n);
  }

  lemma SlotSame(p: Phys, p': Phys, dirs: set<int>, d: int, i: Index, e: u32)
    requires |p| == |p'| == FRAMES && (forall d :: d in dirs ==> 0 < d < FRAMES) && d in dirs
    requires OnlySlot(p, p', dirs, d, i, e) && e == p[d][i]
    ensures SameDirectories(p, p', dirs)
  {
    forall d' | d' in dirs ensures p'[d'] == p[d'] {
      if d' == d { assert forall k: Index :: p'[d][k] == p[d][k]; }
    }
  }

  /** One round of a mapping loop: maps a page that is not mapped. Panics exactly if a table is
      needed and no frame is free, or a user page is wanted under a kernel table. */
  method MapNext(m: Memory, page: Page, paddr: u32, flags: FlagBits) returns (r: Outcome<()>, ghost slot: u32)
    requires m.Valid() && m.Mappable(page, paddr) && !Present(EntryAt(m.Ram(), m.Dir(), page))
    modifies m`freeFramePaddr, m`usedFrames, m`free, m`tables, m.phys
    ensures m.Valid()
    ensures var pde := old(m.Ram())[m.Dir()][Pdi(page)];
      r.Panic? <==> if Present(pde) then UserBit(flags) && !UserBit(pde) else old(m.free) == []
    ensures r.Return? ==>
      && OneMapped(old(m.Ram()), m.Ram(), m.dirs, m.Dir(), page, CreateEntry(paddr, flags), slot, m.window,
                   old(m.free), old(m.tables), m.free, m.tables)
      && (UserBit(flags) ==> UserBit(slot))
      && (!Present(old(m.Ram())[m.Dir()][Pdi(page)]) ==> UserBit(slot) == UserBit(flags))
      && (Present(old(m.Ram())[m.Dir()][Pdi(page)]) ==> unchanged(m))
  {
    hide FrameOf, Pdi, Pti, Address, Present, CreateEntry, Layout, FreeChain, EntryAt, Shared, OnlyPages, SameEntries,
      SameDirectories, SameFrames, OnlySlot, SlotAfter, UserBit, TablesOf, FreeUnmapped;
    ghost var p := m.Ram();
    m.Inside();
    var mapped := m.MapPage(page, paddr, flags);
    if mapped.Panic? {
      return Panic, 0;
    }
    slot := SlotAfter(p[m.Dir()][Pdi(page)], old(m.free), flags);
    SlotAfterBits(p[m.Dir()][Pdi(page)], old(m.free), flags);
    r := Return(());
  }

  ghost function MadeEntries(paddrs: seq<u32>, flags: FlagBits): (entries: seq<u32>)
    ensures |entries| == |paddrs|
  {
    seq(|paddrs|, k requires 0 <= k < |paddrs| => CreateEntry(paddrs[k], flags))
  }

  lemma OneMoreMade(paddrs: seq<u32>, flags: FlagBits, i: nat)
    requires i < |paddrs|
    ensures MadeEntries(paddrs[..i + 1], flags) == MadeEntries(paddrs[..i], flags) + [CreateEntry(paddrs[i], flags)]
    ensures MadeEntries(paddrs[..0], flags) == []
  {
    hide CreateEntry;
  }

  /** What one round means for the rest of the range. */
  lemma RestOfRange(p: Phys, p': Phys, dirs: set<int>, d: int, page: nat, n: nat, flags: FlagBits, e: u32, slot: u32,
                    window: Page, free: seq<int>, tables: set<int>, free': seq<int>, tables': set<int>)
    requires |p| == |p'| == FRAMES && (forall d :: d in dirs ==> 0 < d < FRAMES) && d in dirs
    requires 0 < n && page + n <= TABLES_PAGE && window !in Pages(page, n) && Unmapped(p, d, page, n)
    requires OneMapped(p, p', dirs, d, page, e, slot, window, free, tables, free', tables')
    ensures Unmapped(p', d, page + 1, n - 1)
    ensures (UserBit(flags) ==> UserBit(slot)) ==>
      (CanMap(p, d, page, n, flags, |free|) <==> CanMap(p', d, page + 1, n - 1, flags, |free'|))
  {
    hide EntryAt, Pdi, Present, OnlyPages, SameFrames, OnlySlot, TablesOf, UserBit, CanMap, Unmapped;
    StillUnmapped(p, p', dirs, d, page, n, window);
    if UserBit(flags) ==> UserBit(slot) {
      CanMapStep(p, p', dirs, d, page, n, flags, |free|, slot);
    }
  }

  /** The second loop of `syscall_virt_map`. */
  method MapFrames(m: Memory, page: Page, paddr: array<u32>, n: nat, flags: FlagBits) returns (r: Outcome<()>)
    requires m.Valid() && page + n <= TABLES_PAGE && m.window !in Pages(page, n) && n <= paddr.Length
    requires Unmapped(m.Ram(), m.Dir(), page, n) && NoneFree(paddr[..n], m.free)
    modifies m`freeFramePaddr, m`usedFrames, m`free, m`tables, m.phys
    ensures m.Valid()
    ensures r.Return? <==> CanMap(old(m.Ram()), m.Dir(), page, n, flags, |old(m.free)|)
    ensures r.Return? ==>
      MappedSoFar(old(m.Ram()), m.Ram(), m.dirs, m.Dir(), page, MadeEntries(old(paddr[..n]), flags), n, m.window,
                  old(m.free), old(m.tables), m.free, m.tables)
  {
    hide FrameOf, Pdi, Pti, Present, Layout, FreeChain, EntryAt, Shared, OneMapped, MappedSoFar, CanMap, Unmapped,
      Pages, UserBit, CreateEntry, MadeEntries, FreeUnmapped, NoneFree;
    ghost var p, d, paddrs := m.Ram(), m.Dir(), paddr[..n];
    m.Inside();
    NoneMappedYet(p, m.dirs, d, page, n, m.window, m.free, m.tables);
    if n > 0 { OneMoreMade(paddrs, flags, 0); } else { NoneMade(paddrs, flags); }
    var i := 0;
    while i < n
      invariant 0 <= i <= n && m.Valid() && |m.Ram()| == FRAMES && paddr[..n] == paddrs
      invariant MappedSoFar(p, m.Ram(), m.dirs, d, page, MadeEntries(paddrs[..i], flags), n, m.window, old(m.free),
        old(m.tables), m.free, m.tables)
      invariant Unmapped(m.Ram(), d, page + i, n - i)
      invariant CanMap(p, d, page, n, flags, |old(m.free)|) <==> CanMap(m.Ram(), d, page + i, n - i, flags, |m.free|)
    {
      ghost var p1, free1, tables1 := m.Ram(), m.free, m.tables;
      RangeSlots(m.window, page, n, i);
      FirstUnmapped(p1, d, page + i, n - i);
      m.Inside();
      assert paddr[i] == paddrs[i];
      StillNotFree(p, p1, m.dirs, d, page, MadeEntries(paddrs[..i], flags), n, m.window, old(m.free), old(m.tables),
        m.free, m.tables, paddrs, i);
      ghost var slot;
      r, slot := MapNext(m, page + i, paddr[i], flags);
      if r.Panic? {
        CannotMap(p1, d, page + i, n - i, flags, |free1|);
        return;
      }
      m.Inside();
      RestOfRange(p1, m.Ram(), m.dirs, d, page + i, n - i, flags, CreateEntry(paddr[i], flags), slot, m.window, free1,
        tables1, m.free, m.tables);
      MappedStep(p, p1, m.Ram(), m.dirs, d, page, MadeEntries(paddrs[..i], flags), n, m.window,
        CreateEntry(paddr[i], flags), slot, old(m.free), old(m.tables), free1, tables1, m.free, m.tables);
      OneMoreMade(paddrs, flags, i);
      i := i + 1;
    }
    m.Inside();
    CanMapNone(m.Ram(), d, page + n, flags, |m.free|);
    assert paddrs[..n] == paddrs;
    r := Return(());
  }

  lemma NoneMade(paddrs: seq<u32>, flags: FlagBits)
    ensures MadeEntries(paddrs[..0], flags) == []
  {
  }

  lemma CanMapNone(p: Phys, d: int, page: nat, flags: FlagBits, spare: nat)
    requires |p| == FRAMES && 0 < d < FRAMES && page <= TABLES_PAGE
    ensures CanMap(p, d, page, 0, flags, spare)
  {
  }

  lemma FirstUnmapped(p: Phys, d: int, page: nat, n: nat)
    requires |p| == FRAMES && 0 < d < FRAMES && 0 < n && page + n <= TABLES_PAGE && Unmapped(p, d, page, n)
    ensures !Present(EntryAt(p, d, page))
  {
  }

  /** None of the frames of these addresses or entries is free. */
  ghost predicate NoneFree(words: seq<u32>, free: seq<int>) {
    forall k :: 0 <= k < |words| ==> FrameOf(words[k]) !in free
  }

  lemma StillNotFree(p: Phys, p': Phys, dirs: set<int>, d: int, page: nat, entries: seq<u32>, n: nat, window: Page,
                     free: seq<int>, tables: set<int>, free': seq<int>, tables': set<int>, words: seq<u32>, i: nat)
    requires |p| == |p'| == FRAMES && (forall d :: d in dirs ==> 0 < d < FRAMES) && d in dirs && |entries| <= n
    requires page + n <= TABLES_PAGE
    requires MappedSoFar(p, p', dirs, d, page, entries, n, window, free, tables, free', tables')
    requires NoneFree(words, free) && i < |words|
    ensures FrameOf(words[i]) !in free'
  {
    hide FrameOf, RangeMapped, RangeWritten, Missing, SameFrames, NoDuplicates;
  }

  ghost predicate AllPresent(entries: seq<u32>) {
    forall k :: 0 <= k < |entries| ==> Present(entries[k])
  }

  /** Whether user pages are let in at a slot of a range while it is mapped: by the table that is
      there, or by the one that the first page of the range in this slot creates. */
  ghost predicate LetsUserIn(p: Phys, d: int, page: nat, entries: seq<u32>, i: Index)
    requires |p| == FRAMES && 0 < d < FRAMES
  {
    if Present(p[d][i]) then UserBit(p[d][i])
    else var k := if 1024 * i <= page then 0 else 1024 * i - page; k < |entries| && UserBit(entries[k])
  }

  /** Entry `k` of a range is for no user page, or its slot lets user pages in. */
  ghost predicate Admitted(p: Phys, d: int, page: nat, entries: seq<u32>, k: nat)
    requires |p| == FRAMES && 0 < d < FRAMES && page + |entries| <= TABLES_PAGE && k < |entries|
  {
    UserBit(entries[k]) ==> LetsUserIn(p, d, page, entries, Pdi(page + k))
  }

  /** These entries can be mapped at the range, one after the other, with `spare` frames for tables. */
  ghost predicate CanMapEntries(p: Phys, d: int, page: nat, entries: seq<u32>, spare: int)
    requires |p| == FRAMES && 0 < d < FRAMES && page + |entries| <= TABLES_PAGE
  {
    (forall k :: 0 <= k < |entries| ==> Admitted(p, d, page, entries, k))
    && spare >= |Missing(p, d, page, |entries|)|
  }

  /** The first entry of a range can be mapped or not; the rest decides. */
  lemma CanMapEntriesStep(p: Phys, p': Phys, dirs: set<int>, d: int, page: nat, entries: seq<u32>, spare: int,
                          slot: u32)
    requires |p| == |p'| == FRAMES && (forall d :: d in dirs ==> 0 < d < FRAMES) && d in dirs
    requires entries != [] && page + |entries| <= TABLES_PAGE && OnlySlot(p, p', dirs, d, Pdi(page), slot)
    requires Present(slot)
    requires if Present(p[d][Pdi(page)]) then slot == p[d][Pdi(page)] else UserBit(slot) == UserBit(entries[0])
    requires Present(p[d][Pdi(page)]) && UserBit(entries[0]) ==> UserBit(p[d][Pdi(page)])
    ensures CanMapEntries(p, d, page, entries, spare)
        <==> CanMapEntries(p', d, page + 1, entries[1..], if Present(p[d][Pdi(page)]) then spare else spare - 1)
  {
    hide Present, UserBit, Missing, Admitted, OnlySlot;
    MissingStep(p, p', dirs, d, page, |entries|, slot);
    FirstAdmitted(p, d, page, entries);
    var rest, next: nat := entries[1..], page + 1;
    if forall k :: 0 <= k < |entries| ==> Admitted(p, d, page, entries, k) {
      forall k | 0 <= k < |rest| ensures Admitted(p', d, next, rest, k) {
        LaterAdmitted(p, p', dirs, d, page, entries, slot, k);
        assert Admitted(p, d, page, entries, k + 1);
      }
    }
    if forall k :: 0 <= k < |rest| ==> Admitted(p', d, next, rest, k) {
      forall k | 0 < k < |entries| ensures Admitted(p, d, page, entries, k) {
        LaterAdmitted(p, p', dirs, d, page, entries, slot, k - 1);
      }
    }
  }

  lemma FirstAdmitted(p: Phys, d: int, page: nat, entries: seq<u32>)
    requires |p| == FRAMES && 0 < d < FRAMES && entries != [] && page + |entries| <= TABLES_PAGE
    ensures Admitted(p, d, page, entries, 0) <==>
      (Present(p[d][Pdi(page)]) && UserBit(entries[0]) ==> UserBit(p[d][Pdi(page)]))
  {
    hide Present, UserBit;
  }

  /** What later pages find is not changed by the first one. */
  lemma LaterAdmitted(p: Phys, p': Phys, dirs: set<int>, d: int, page: nat, entries: seq<u32>, slot: u32, k: nat)
    requires |p| == |p'| == FRAMES && (forall d :: d in dirs ==> 0 < d < FRAMES) && d in dirs
    requires k + 1 < |entries| && page + |entries| <= TABLES_PAGE && OnlySlot(p, p', dirs, d, Pdi(page), slot)
    requires Present(slot)
    requires if Present(p[d][Pdi(page)]) then slot == p[d][Pdi(page)] else UserBit(slot) == UserBit(entries[0])
    ensures Admitted(p', d, page + 1, entries[1..], k) == Admitted(p, d, page, entries, k + 1)
  {
    hide Present, UserBit;
    assert entries[1..][k] == entries[k + 1] && page + 1 + k == page + (k + 1);
  }

  lemma CannotMapEntries(p: Phys, d: int, page: nat, entries: seq<u32>, spare: nat)
    requires |p| == FRAMES && 0 < d < FRAMES && entries != [] && page + |entries| <= TABLES_PAGE
    requires var pde := p[d][Pdi(page)]; if Present(pde) then UserBit(entries[0]) && !UserBit(pde) else spare == 0
    ensures !CanMapEntries(p, d, page, entries, spare)
  {
    hide Present, UserBit, Missing;
    SlotOrder(page, page + |entries| - 1);
    if Present(p[d][Pdi(page)]) {
      FirstAdmitted(p, d, page, entries);
    } else {
      MissesTable(p, d, page, |entries|);
    }
  }

  lemma MissesTable(p: Phys, d: int, page: nat, count: nat)
    requires |p| == FRAMES && 0 < d < FRAMES && 0 < count && page + count <= TABLES_PAGE && !Present(p[d][Pdi(page)])
    ensures |Missing(p, d, page, count)| > 0
  {
    hide Pdi, Present;
    SlotOrder(page, page + count - 1);
    assert Pdi(page) in Missing(p, d, page, count);
  }

  lemma CanMapNoEntries(p: Phys, d: int, page: nat, spare: nat)
    requires |p| == FRAMES && 0 < d < FRAMES && page <= TABLES_PAGE
    ensures CanMapEntries(p, d, page, [], spare)
  {
  }

  /** If all entries are for user pages, they can be mapped exactly if the range can for these. */
  lemma UserEntries(p: Phys, d: int, page: nat, entries: seq<u32>, spare: int)
    requires |p| == FRAMES && 0 < d < FRAMES && page + |entries| <= TABLES_PAGE
    requires forall k :: 0 <= k < |entries| ==> UserBit(entries[k])
    ensures CanMapEntries(p, d, page, entries, spare) <==> CanMap(p, d, page, |entries|, USER_MODE, spare)
  {
    hide Present, Missing, UserBit;
    assert UserBit(USER_MODE) by { UserModeBit(); }
    var n := |entries|;
    if CanMapEntries(p, d, page, entries, spare) && n > 0 {
      forall i: Index | Pdi(page) <= i <= Pdi(page + n - 1) && Present(p[d][i]) ensures UserBit(p[d][i]) {
        var k := if 1024 * i <= page then 0 else 1024 * i - page;
        assert 0 <= k < n && Pdi(page + k) == i && Admitted(p, d, page, entries, k);
      }
    }
    if CanMap(p, d, page, n, USER_MODE, spare) {
      forall k | 0 <= k < n ensures Admitted(p, d, page, entries, k) {
        SlotOrder(page, page + k);
        SlotOrder(page + k, page + n - 1);
      }
    }
  }

  lemma UserModeBit()
    ensures UserBit(USER_MODE)
  {
  }

  /** The last loop of `syscall_virt_transfer`. */
  method MapEntries(m: Memory, page: Page, entries: array<u32>, n: nat) returns (r: Outcome<()>)
    requires m.Valid() && page + n <= TABLES_PAGE && m.window !in Pages(page, n) && n <= entries.Length
    requires Unmapped(m.Ram(), m.Dir(), page, n) && AllPresent(entries[..n]) && NoneFree(entries[..n], m.free)
    modifies m`freeFramePaddr, m`usedFrames, m`free, m`tables, m.phys
    ensures m.Valid()
    ensures r.Return? <==> CanMapEntries(old(m.Ram()), m.Dir(), page, old(entries[..n]), |old(m.free)|)
    ensures r.Return? ==>
      MappedSoFar(old(m.Ram()), m.Ram(), m.dirs, m.Dir(), page, old(entries[..n]), n, m.window, old(m.free),
        old(m.tables), m.free, m.tables)
    ensures r.Return? && Missing(old(m.Ram()), m.Dir(), page, n) == {} ==> unchanged(m)
  {
    hide FrameOf, Pdi, Pti, Present, Layout, FreeChain, EntryAt, Shared, OneMapped, MappedSoFar, CanMapEntries,
      Unmapped, Pages, UserBit, CreateEntry, Missing, Flags, Address, AllPresent, FreeUnmapped, NoneFree;
    ghost var p, d, es := m.Ram(), m.Dir(), entries[..n];
    m.Inside();
    NoneMappedYet(p, m.dirs, d, page, n, m.window, m.free, m.tables);
    assert es[..0] == [] && es[0..] == es;
    var i := 0;
    while i < n
      invariant 0 <= i <= n && m.Valid() && |m.Ram()| == FRAMES && entries[..n] == es
      invariant MappedSoFar(p, m.Ram(), m.dirs, d, page, es[..i], n, m.window, old(m.free), old(m.tables), m.free,
        m.tables)
      invariant Unmapped(m.Ram(), d, page + i, n - i)
      invariant CanMapEntries(p, d, page, es, |old(m.free)|) <==> CanMapEntries(m.Ram(), d, page + i, es[i..], |m.free|)
      invariant Missing(p, d, page, n) == {} ==> unchanged(m)
    {
      ghost var p1, free1, tables1 := m.Ram(), m.free, m.tables;
      RangeSlots(m.window, page, n, i);
      FirstUnmapped(p1, d, page + i, n - i);
      m.Inside();
      ghost var slot;
      assert entries[i] == es[i] == es[i..][0];
      EntryAgain(es, i);
      StillNotFree(p, p1, m.dirs, d, page, es[..i], n, m.window, old(m.free), old(m.tables), m.free, m.tables, es, i);
      r, slot := MapNext(m, page + i, Address(FrameOf(entries[i])), Flags(entries[i]));
      if r.Panic? {
        CannotMapEntries(p1, d, page + i, es[i..], |free1|);
        return;
      }
      m.Inside();
      RestOfEntries(p1, m.Ram(), m.dirs, d, page + i, es[i..], slot, m.window, free1, tables1, m.free, m.tables);
      MappedStep(p, p1, m.Ram(), m.dirs, d, page, es[..i], n, m.window, es[i], slot, old(m.free), old(m.tables), free1,
        tables1, m.free, m.tables);
      if Missing(p, d, page, n) == {} {
        StillThere(p, p1, m.dirs, d, page, es, n, i, m.window, old(m.free), old(m.tables), free1, tables1);
      }
      assert es[..i] + [es[i]] == es[..i + 1] && es[i..][1..] == es[i + 1..];
      i := i + 1;
    }
    m.Inside();
    CanMapNoEntries(m.Ram(), d, page + n, |m.free|);
    assert es[..n] == es && es[n..] == [];
    r := Return(());
  }

  /** What one round means for the rest of the entries. */
  lemma RestOfEntries(p: Phys, p': Phys, dirs: set<int>, d: int, page: nat, es: seq<u32>, slot: u32, window: Page,
                      free: seq<int>, tables: set<int>, free': seq<int>, tables': set<int>)
    requires |p| == |p'| == FRAMES && (forall d :: d in dirs ==> 0 < d < FRAMES) && d in dirs
    requires es != [] && page + |es| <= TABLES_PAGE && window !in Pages(page, |es|) && Unmapped(p, d, page, |es|)
    requires OneMapped(p, p', dirs, d, page, es[0], slot, window, free, tables, free', tables')
    requires if Present(p[d][Pdi(page)]) then UserBit(es[0]) ==> UserBit(slot) else UserBit(slot) == UserBit(es[0])
    ensures Unmapped(p', d, page + 1, |es| - 1)
    ensures CanMapEntries(p, d, page, es, |free|) <==> CanMapEntries(p', d, page + 1, es[1..], |free'|)
  {
    hide EntryAt, Pdi, Present, OnlyPages, SameFrames, OnlySlot, TablesOf, UserBit, CanMapEntries, Unmapped;
    StillUnmapped(p, p', dirs, d, page, |es|, window);
    CanMapEntriesStep(p, p', dirs, d, page, es, |free|, slot);
  }

  /** A saved entry is put together again from its frame and its flags. */
  lemma EntryAgain(es: seq<u32>, i: nat)
    requires i < |es| && AllPresent(es)
    ensures CreateEntry(Address(FrameOf(es[i])), Flags(es[i])) == es[i]
    ensures UserBit(Flags(es[i])) == UserBit(es[i]) && FrameOf(Address(FrameOf(es[i]))) == FrameOf(es[i])
  {
    hide FrameOf, Address, Flags, CreateEntry;
    EntryRoundTrip(es[i]);
    AddressFrame(FrameOf(es[i]));
  }

  lemma StillThere(p: Phys, p1: Phys, dirs: set<int>, d: int, page: nat, es: seq<u32>, n: nat, i: nat, window: Page,
                   free: seq<int>, tables: set<int>, free1: seq<int>, tables1: set<int>)
    requires |p| == |p1| == FRAMES && (forall d :: d in dirs ==> 0 < d < FRAMES) && d in dirs && i < n == |es|
    requires page + n <= TABLES_PAGE
    requires Missing(p, d, page, n) == {}
    requires MappedSoFar(p, p1, dirs, d, page, es[..i], n, window, free, tables, free1, tables1)
    ensures Present(p1[d][Pdi(page + i)]) && p1[d][Pdi(page + i)] == p[d][Pdi(page + i)]
  {
    hide EntryAt, Pdi, Present, OnlyPages, SameFrames, TablesOf, Missing, RangeMapped, FramesTaken;
    SlotPresent(p, p1, dirs, d, page, es[..i], n);
  }
}
