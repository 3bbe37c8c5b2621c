/** What a transfer between two address spaces does to the page tables, also if it is undone or the
    two ranges overlap in one space (`syscall_virt_transfer`, src/memory/mem.c:715-782). */
module Transfers {
  import opened Words
  import opened Entries
  import opened PageTables
  import opened PageRanges
  import opened MapLoops

  /** An entry of page `q` that space `d` writes is written in space `d'` too. */
  predicate Reaches(p: Phys, d: int, d': int, q: Page)
    requires |p| == FRAMES && 0 < d < FRAMES && 0 < d' < FRAMES
  {
    d' == d || SharesTable(p, d, d', Pdi(q))
  }

  /** Pages in slots that are not shared are written in one space only. */
  lemma OwnSlots(p: Phys, dirs: set<int>, tables: set<int>, free: seq<int>, wi: Index, d: int, d': int, q: Page)
    requires Layout(p, dirs, tables, free, wi) && d in dirs && d' in dirs && Pdi(q) < 1023 && !Shared(Pdi(q))
    ensures 0 < d < FRAMES && 0 < d' < FRAMES && (Reaches(p, d, d', q) <==> d' == d)
  {
    hide FrameOf, Present, Shared, Pdi, TablesKnown;
  }

  /** The target range is free once the source range is unmapped. */
  ghost predicate Room(p: Phys, ds: int, dd: int, src: nat, dst: nat, n: nat)
    requires |p| == FRAMES && 0 < ds < FRAMES && 0 < dd < FRAMES && dst + n <= TABLES_PAGE
  {
    forall q: Page :: dst <= q < dst + n && !(src <= q < src + n && Reaches(p, ds, dd, q)) ==>
      !Present(EntryAt(p, dd, q))
  }

  /** The entry of a page after a transfer: that of the source page, or none, or what it was. */
  ghost function TransferredEntry(p: Phys, ds: int, dd: int, src: nat, dst: nat, n: nat, d: int, q: Page): u32
    requires |p| == FRAMES && 0 < ds < FRAMES && 0 < dd < FRAMES && 0 < d < FRAMES && src + n <= TABLES_PAGE
  {
    if dst <= q < dst + n && Reaches(p, dd, d, q) then EntryAt(p, ds, q - dst + src)
    else if src <= q < src + n && Reaches(p, ds, d, q) then 0
    else EntryAt(p, d, q)
  }

  /** The entries of the source range are at the target range and gone from the rest of the source
      range; no other entry changed, but for the window. */
  ghost predicate Transferred(p: Phys, p': Phys, dirs: set<int>, ds: int, dd: int, src: nat, dst: nat, n: nat,
                              window: Page)
    requires |p| == |p'| == FRAMES && (forall d :: d in dirs ==> 0 < d < FRAMES) && ds in dirs && dd in dirs
    requires src + n <= TABLES_PAGE && dst + n <= TABLES_PAGE
  {
    forall d, q: Page :: d in dirs && Pdi(q) < 1023 && q != window ==>
      EntryAt(p', d, q) == TransferredEntry(p, ds, dd, src, dst, n, d, q)
  }

  lemma ReachedEntry(p: Phys, p': Phys, dirs: set<int>, d0: int, pages: set<Page>, d: int, q: Page)
    requires |p| == |p'| == FRAMES && (forall d :: d in dirs ==> 0 < d < FRAMES) && d0 in dirs && d in dirs
    requires OnlyPages(p, p', dirs, d0, pages) && Pdi(q) < 1023
    ensures EntryAt(p', d, q) == if q in pages && Reaches(p, d0, d, q) then EntryAt(p', d0, q) else EntryAt(p, d, q)
  {
    hide EntryAt, Pdi, Shared, SharesTable;
    if d != d0 && SharesTable(p, d0, d, Pdi(q)) {
      TablesStay(p, p', dirs, d0, pages);
      SharesKept(p, p', dirs, d0, d, Pdi(q));
      SharedEntry(p', d0, d, q);
      SharedEntry(p, d0, d, q);
    }
  }

  /** Entry of a page after a range was written. */
  lemma AfterWrite(p: Phys, p1: Phys, dirs: set<int>, d0: int, page: nat, entries: seq<u32>, d: int, q: Page)
    requires |p| == |p1| == FRAMES && (forall d :: d in dirs ==> 0 < d < FRAMES) && d0 in dirs && d in dirs
    requires page + |entries| <= TABLES_PAGE && RangeWritten(p, p1, dirs, d0, page, entries) && Pdi(q) < 1023
    ensures EntryAt(p1, d, q) ==
      if page <= q < page + |entries| && Reaches(p, d0, d, q) then entries[q - page] else EntryAt(p, d, q)
  {
    hide EntryAt, Pdi, Shared, OnlyPages, Reaches;
    ReachedEntry(p, p1, dirs, d0, Pages(page, |entries|), d, q);
    if page <= q < page + |entries| {
      assert q == page + (q - page) && q in Pages(page, |entries|);
    }
  }

  lemma AfterMap(p: Phys, p1: Phys, dirs: set<int>, d0: int, page: nat, entries: seq<u32>, window: Page, d: int,
                 q: Page)
    requires |p| == |p1| == FRAMES && (forall d :: d in dirs ==> 0 < d < FRAMES) && d0 in dirs && d in dirs
    requires page + |entries| <= TABLES_PAGE
    requires RangeMapped(p, p1, dirs, d0, page, entries, window) && Pdi(q) < 1023 && q != window
    ensures EntryAt(p1, d, q) ==
      if page <= q < page + |entries| && Reaches(p, d0, d, q) then entries[q - page] else EntryAt(p, d, q)
  {
    hide EntryAt, Pdi, Shared, OnlyPages, Reaches, SlotsGrow;
    ReachedEntry(p, p1, dirs, d0, Pages(page, |entries|) + {window}, d, q);
    if page <= q < page + |entries| {
      assert q == page + (q - page) && q in Pages(page, |entries|);
    }
  }

  lemma SameReach(p: Phys, p': Phys, dirs: set<int>, d: int, d': int, q: Page)
    requires |p| == |p'| == FRAMES && (forall d :: d in dirs ==> 0 < d < FRAMES) && d in dirs && d' in dirs
    requires SameDirectories(p, p', dirs)
    ensures Reaches(p', d, d', q) <==> Reaches(p, d, d', q)
  {
    hide FrameOf, Present, Pdi;
  }

  /** Once the source is unmapped, the target is unmapped exactly if there was room. */
  lemma RoomIsUnmapped(p: Phys, p1: Phys, dirs: set<int>, ds: int, dd: int, src: nat, dst: nat, n: nat)
    requires |p| == |p1| == FRAMES && (forall d :: d in dirs ==> 0 < d < FRAMES) && ds in dirs && dd in dirs
    requires src + n <= TABLES_PAGE && dst + n <= TABLES_PAGE && RangeWritten(p, p1, dirs, ds, src, Zeroed(n))
    ensures Unmapped(p1, dd, dst, n) <==> Room(p, ds, dd, src, dst, n)
    ensures Unmapped(p1, ds, src, n)
  {
    hide EntryAt, Pdi, RangeWritten, Present, SharesTable;
    NotPresentZero();
    forall q: Page | dst <= q < dst + n
      ensures EntryAt(p1, dd, q) == if src <= q < src + n && Reaches(p, ds, dd, q) then 0 else EntryAt(p, dd, q)
    {
      SlotOrder(q, q);
      AfterWrite(p, p1, dirs, ds, src, Zeroed(n), dd, q);
    }
    forall q: Page | src <= q < src + n ensures EntryAt(p1, ds, q) == 0 {
      SlotOrder(q, q);
      AfterWrite(p, p1, dirs, ds, src, Zeroed(n), ds, q);
    }
  }

  /** Mapping the saved entries at the source again restores memory bit for bit. */
  lemma UndoRestores(p: Phys, p1: Phys, p2: Phys, dirs: set<int>, ds: int, src: nat, n: nat)
    requires |p| == |p1| == |p2| == FRAMES && (forall d :: d in dirs ==> 0 < d < FRAMES) && ds in dirs
    requires src + n <= TABLES_PAGE
    requires RangeWritten(p, p1, dirs, ds, src, Zeroed(n))
    requires RangeWritten(p1, p2, dirs, ds, src, EntriesAt(p, ds, src, n))
    ensures p2 == p
  {
    hide EntryAt, Pdi, RangeWritten, TablesOf, SameFrames, SharesTable;
    forall q: Page | Pdi(q) < 1023 ensures EntryAt(p2, ds, q) == EntryAt(p, ds, q) {
      AfterWrite(p, p1, dirs, ds, src, Zeroed(n), ds, q);
      AfterWrite(p1, p2, dirs, ds, src, EntriesAt(p, ds, src, n), ds, q);
    }
    WrittenFrames(p, p1, p2, dirs, ds, src, Zeroed(n), EntriesAt(p, ds, src, n));
    EntriesDetermine(p, p2, ds);
  }

  lemma WrittenFrames(p: Phys, p1: Phys, p2: Phys, dirs: set<int>, d: int, page: nat, a: seq<u32>, b: seq<u32>)
    requires |p| == |p1| == |p2| == FRAMES && (forall d :: d in dirs ==> 0 < d < FRAMES) && d in dirs
    requires page + |a| <= TABLES_PAGE && page + |b| <= TABLES_PAGE
    requires RangeWritten(p, p1, dirs, d, page, a) && RangeWritten(p1, p2, dirs, d, page, b)
    ensures p2[d] == p[d] && SameFrames(p, p2, TablesOf(p, d))
  {
    hide EntryAt, Pdi, OnlyPages;
    TwoWrites(p, p1, p2, dirs, d, Pages(page, |a|), Pages(page, |b|));
  }

  /** Mapping the saved entries at the target completes the transfer. */
  lemma TransferCompletes(p: Phys, p1: Phys, p2: Phys, dirs: set<int>, ds: int, dd: int, src: nat, dst: nat, n: nat,
                          window: Page)
    requires |p| == |p1| == |p2| == FRAMES && (forall d :: d in dirs ==> 0 < d < FRAMES) && ds in dirs && dd in dirs
    requires src + n <= TABLES_PAGE && dst + n <= TABLES_PAGE && SameDirectories(p, p1, dirs)
    requires RangeWritten(p, p1, dirs, ds, src, Zeroed(n))
    requires RangeMapped(p1, p2, dirs, dd, dst, EntriesAt(p, ds, src, n), window)
    ensures Transferred(p, p2, dirs, ds, dd, src, dst, n, window)
  {
    hide EntryAt, Pdi, RangeWritten, RangeMapped, Shared, Reaches, SameDirectories;
    var entries := EntriesAt(p, ds, src, n);
    forall d, q: Page | d in dirs && Pdi(q) < 1023 && q != window
      ensures EntryAt(p2, d, q) == TransferredEntry(p, ds, dd, src, dst, n, d, q)
    {
      AfterMap(p1, p2, dirs, dd, dst, entries, window, d, q);
      AfterWrite(p, p1, dirs, ds, src, Zeroed(n), d, q);
      SameReach(p, p1, dirs, dd, d, q);
      if dst <= q < dst + n { assert src + (q - dst) == q - dst + src; }
    }
  }

  /** A mapped range misses no table. */
  lemma MappedHasTables(p: Phys, d: int, page: nat, n: nat)
    requires |p| == FRAMES && 0 < d < FRAMES && page + n <= TABLES_PAGE && Mapped(p, d, page, n)
    ensures Missing(p, d, page, n) == {}
  {
    hide Present, FrameOf;
    NotPresentZero();
    if n > 0 {
      forall i: Index | Pdi(page) <= i <= Pdi(page + n - 1) ensures Present(p[d][i]) {
        var q: Page := if i == Pdi(page) then page else 1024 * i;
        assert Pdi(q) == i && page <= q < page + n;
        assert Present(EntryAt(p, d, q));
      }
    }
  }

  /** Which entries can be mapped depends on the directory only. */
  lemma SameDirectoryMaps(p: Phys, p': Phys, d: int, page: nat, entries: seq<u32>, spare: int)
    requires |p| == |p'| == FRAMES && 0 < d < FRAMES && page + |entries| <= TABLES_PAGE && p'[d] == p[d]
    ensures Missing(p', d, page, |entries|) == Missing(p, d, page, |entries|)
    ensures CanMapEntries(p', d, page, entries, spare) <==> CanMapEntries(p, d, page, entries, spare)
  {
    hide Present, UserBit, Pdi;
    forall k | 0 <= k < |entries| ensures Admitted(p', d, page, entries, k) == Admitted(p, d, page, entries, k) {
    }
    assert Missing(p', d, page, |entries|) == Missing(p, d, page, |entries|);
  }

  /** User pages of the range are under user tables, as `map_page` always arranges it. */
  ghost predicate UserTables(p: Phys, d: int, page: nat, n: nat)
    requires |p| == FRAMES && 0 < d < FRAMES && page + n <= TABLES_PAGE
  {
    forall q: Page :: page <= q < page + n && UserBit(EntryAt(p, d, q)) ==> UserBit(p[d][Pdi(q)])
  }

  /** Entries that were unmapped can be mapped again exactly if user pages were under user tables. */
  lemma UndoSucceeds(p: Phys, p1: Phys, d: int, page: nat, n: nat, spare: nat)
    requires |p| == |p1| == FRAMES && 0 < d < FRAMES && page + n <= TABLES_PAGE && p1[d] == p[d]
    requires Mapped(p, d, page, n)
    ensures Missing(p1, d, page, n) == {}
    ensures CanMapEntries(p1, d, page, EntriesAt(p, d, page, n), spare) <==> UserTables(p, d, page, n)
  {
    hide EntryAt, UserBit, Missing, Mapped, LetsUserIn;
    var es := EntriesAt(p, d, page, n);
    MappedHasTables(p, d, page, n);
    SameDirectoryMaps(p, p1, d, page, es, spare);
    forall q: Page | page <= q < page + n
      ensures Admitted(p, d, page, es, q - page) <==> (UserBit(EntryAt(p, d, q)) ==> UserBit(p[d][Pdi(q)]))
    {
      assert page + (q - page) == q;
      TableThere(p, d, page, n, q);
      TablesLetIn(p, d, page, es, Pdi(q));
    }
    if UserTables(p, d, page, n) {
      forall k | 0 <= k < n ensures Admitted(p, d, page, es, k) {
        var q: Page := page + k;
        assert q - page == k;
      }
    }
  }

  lemma TablesLetIn(p: Phys, d: int, page: nat, entries: seq<u32>, i: Index)
    requires |p| == FRAMES && 0 < d < FRAMES && Present(p[d][i])
    ensures LetsUserIn(p, d, page, entries, i) <==> UserBit(p[d][i])
  {
    hide Present, UserBit;
  }

  lemma TableThere(p: Phys, d: int, page: nat, n: nat, q: Page)
    requires |p| == FRAMES && 0 < d < FRAMES && page + n <= TABLES_PAGE && Mapped(p, d, page, n) && page <= q < page + n
    ensures Present(p[d][Pdi(q)])
  {
    hide FrameOf, Pdi, Pti, Present;
    NotPresentZero();
    assert Present(EntryAt(p, d, q));
  }

  /** The frames behind mapped pages are not free. */
  lemma SavedNotFree(p: Phys, dirs: set<int>, window: Page, free: seq<int>, d: int, page: nat, n: nat)
    requires |p| == FRAMES && (forall d :: d in dirs ==> 0 < d < FRAMES) && d in dirs && page + n <= TABLES_PAGE
    requires FreeUnmapped(p, dirs, window, free) && window !in Pages(page, n) && Mapped(p, d, page, n)
    ensures NoneFree(EntriesAt(p, d, page, n), free)
  {
    hide EntryAt, Present, FrameOf, Pdi, FreeUnmapped;
    forall k | 0 <= k < n ensures FrameOf(EntriesAt(p, d, page, n)[k]) !in free {
      var q: Page := page + k;
      assert Present(EntryAt(p, d, q)) && q in Pages(page, n);
      SlotOrder(q, q);
      BehindPage(p, dirs, window, free, d, q);
    }
  }

  lemma SavedPresent(p: Phys, d: int, page: nat, n: nat)
    requires |p| == FRAMES && 0 < d < FRAMES && page + n <= TABLES_PAGE && Mapped(p, d, page, n)
    ensures AllPresent(EntriesAt(p, d, page, n))
  {
    hide EntryAt, Present;
  }
}
