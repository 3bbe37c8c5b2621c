/** Where frames go when kernel memory is allocated and freed: from the free list to tables, to
    directories and to pages of a heap, and back to the list, and nowhere else. */
module FrameFlow {
  import opened Words
  import opened Entries
  import opened PageTables
  import opened PageRanges
  import opened BackedHeap

  /** A page of the range is mapped to the frame. */
  ghost predicate BehindRange(p: Phys, d: int, base: nat, n: nat, f: int)
    requires |p| == FRAMES && 0 < d < FRAMES && base + n <= TABLES_PAGE
  {
    exists q: Page :: base <= q < base + n && Present(EntryAt(p, d, q)) && FrameOf(EntryAt(p, d, q)) == f
  }

  /** Tables were added from the free frames. */
  ghost predicate NewTables(tables: set<int>, free: seq<int>, tables': set<int>) {
    tables <= tables' && forall t :: t in tables' ==> t in tables || t in free
  }

  /** Free frames were free or behind a heap page, frames behind heap pages were so or were free, and
      each of both kinds is one of these still, or in a new table or one of the `added` directories. */
  ghost predicate FramesFlow(n: nat, p: Phys, p': Phys, d: int, base: nat, tables: set<int>, free: seq<int>,
                             tables': set<int>, free': seq<int>, added: set<int>)
    requires |p| == |p'| == FRAMES && 0 < d < FRAMES && base + n <= TABLES_PAGE
  {
    && NewTables(tables, free, tables')
    && (forall f :: f in free' || f in added || BehindRange(p', d, base, n, f) ==>
          f in free || BehindRange(p, d, base, n, f))
    && (forall f :: f in free || BehindRange(p, d, base, n, f) ==>
          f in free' || f in tables' || f in added || BehindRange(p', d, base, n, f))
  }

  lemma BehindAt(p: Phys, d: int, base: nat, n: nat, q: Page)
    requires |p| == FRAMES && 0 < d < FRAMES && base + n <= TABLES_PAGE && base <= q < base + n
    requires Present(EntryAt(p, d, q))
    ensures BehindRange(p, d, base, n, FrameOf(EntryAt(p, d, q)))
  {
  }

  /** Frames behind pages that no operation touched are behind them still. */
  lemma BehindKept(p: Phys, p': Phys, d: int, base: nat, n: nat, f: int)
    requires |p| == |p'| == FRAMES && 0 < d < FRAMES && base + n <= TABLES_PAGE
    requires forall q: Page :: base <= q < base + n ==> EntryAt(p', d, q) == EntryAt(p, d, q)
    ensures BehindRange(p', d, base, n, f) <==> BehindRange(p, d, base, n, f)
  {
    hide EntryAt, Present, FrameOf;
  }

  /** What the allocation of heap pages does with frames. */
  lemma AllocFlow(p: Phys, p': Phys, dirs: set<int>, d: int, tables: set<int>, tables': set<int>, free: seq<int>,
                  free': seq<int>, base: nat, n: nat, page: nat, frames: seq<int>, flags: FlagBits, window: Page)
    requires |p| == |p'| == FRAMES && (forall d :: d in dirs ==> 0 < d < FRAMES) && d in dirs && base + n <= TABLES_PAGE
    requires base <= page && page + |frames| <= base + n && window !in Pages(base, n)
    requires FramesTaken(free, tables, free', tables', frames) && Unmapped(p, d, page, |frames|)
    requires RangeMapped(p, p', dirs, d, page, EntriesFor(frames, flags), window)
    ensures FramesFlow(n, p, p', d, base, tables, free, tables', free', {})
  {
    hide EntryAt, Present, FrameOf, RangeMapped, OnlyPages, SlotsGrow, NoDuplicates, Pages;
    forall q: Page | base <= q < base + n
      ensures if page <= q < page + |frames| then
                Present(EntryAt(p', d, q)) && FrameOf(EntryAt(p', d, q)) == frames[q - page]
              else EntryAt(p', d, q) == EntryAt(p, d, q)
    {
      if page <= q < page + |frames| {
        MappedTo(p, p', dirs, d, page, frames, flags, window, q);
      } else {
        RangeMappedKeeps(p, p', dirs, d, base, n, page, EntriesFor(frames, flags), window, q);
      }
    }
    forall f | f in frames ensures BehindRange(p', d, base, n, f) {
      var k :| 0 <= k < |frames| && frames[k] == f;
      var q: Page := page + k;
      assert frames[q - page] == f;
      BehindAt(p', d, base, n, q);
    }
  }

  lemma RangeMappedKeeps(p: Phys, p': Phys, dirs: set<int>, d: int, base: nat, n: nat, page: nat, entries: seq<u32>,
                         window: Page, q: Page)
    requires |p| == |p'| == FRAMES && (forall d :: d in dirs ==> 0 < d < FRAMES) && d in dirs && base + n <= TABLES_PAGE
    requires page + |entries| <= TABLES_PAGE
    requires window !in Pages(base, n) && base <= q < base + n && !(page <= q < page + |entries|)
    requires RangeMapped(p, p', dirs, d, page, entries, window)
    ensures EntryAt(p', d, q) == EntryAt(p, d, q)
  {
    hide EntryAt, OnlyPages, SlotsGrow, Pages;
    OutsideKept(p, p', dirs, d, base, n, page, |entries|, window, q);
  }

  /** What the release of heap pages does with frames. */
  lemma FreeFlow(p: Phys, p': Phys, dirs: set<int>, d: int, tables: set<int>, free: seq<int>, free': seq<int>,
                 base: nat, n: nat, page: nat, len: nat, window: Page)
    requires |p| == |p'| == FRAMES && (forall d :: d in dirs ==> 0 < d < FRAMES) && d in dirs && base + n <= TABLES_PAGE
    requires base <= page && page + len <= base + n && window !in Pages(base, n)
    requires RangeFreed(p, p', dirs, d, tables, free, free', page, len, window)
    ensures FramesFlow(n, p, p', d, base, tables, free, tables, free', {})
  {
    hide EntryAt, Present, FrameOf, OnlyPages, SameFrames, SameDirectories, Pages;
    NotPresentZero();
    forall q: Page | base <= q < base + n && !(page <= q < page + len)
      ensures EntryAt(p', d, q) == EntryAt(p, d, q)
    {
      OutsideKept(p, p', dirs, d, base, n, page, len, window, q);
    }
    forall f | f in Backing(p, d, page, len) ensures BehindRange(p, d, base, n, f) {
      var k :| 0 <= k < len && Backing(p, d, page, len)[k] == f;
      BehindAt(p, d, base, n, page + len - 1 - k);
    }
    forall q: Page | page <= q < page + len ensures FrameOf(EntryAt(p, d, q)) in free' {
      assert free'[page + len - 1 - q] == FrameOf(EntryAt(p, d, q));
    }
    forall f | f in free ensures f in free' {
      var k :| 0 <= k < |free| && free[k] == f;
      assert free'[len + k] == f;
    }
  }

  /** A heap page is unmapped and its frame becomes a directory. */
  lemma DetachFlow(p: Phys, p1: Phys, p2: Phys, dirs: set<int>, d: int, tables: set<int>, free: seq<int>, base: nat,
                   n: nat, s: nat)
    requires |p| == |p1| == |p2| == FRAMES && (forall d :: d in dirs ==> 0 < d < FRAMES) && d in dirs
    requires base + n <= TABLES_PAGE && s < n && Present(EntryAt(p, d, base + s))
    requires forall q: Page :: base <= q < base + n ==> EntryAt(p1, d, q) == EntryAt(p, d, q)
    requires OnlyPages(p1, p2, dirs, d, {base + s}) && EntryAt(p2, d, base + s) == 0
    ensures FramesFlow(n, p, p2, d, base, tables, free, tables, free, {FrameOf(EntryAt(p, d, base + s))})
  {
    hide EntryAt, Present, FrameOf, OnlyPages;
    NotPresentZero();
    forall q: Page | base <= q < base + n && q != base + s ensures EntryAt(p2, d, q) == EntryAt(p, d, q) {
      KeptPage(p1, p2, dirs, d, {base + s}, q);
    }
    BehindAt(p, d, base, n, base + s);
  }

  lemma SameEntriesFlow(n: nat, p: Phys, p': Phys, d: int, base: nat, tables: set<int>, free: seq<int>)
    requires |p| == |p'| == FRAMES && 0 < d < FRAMES && base + n <= TABLES_PAGE
    requires forall q: Page :: base <= q < base + n ==> EntryAt(p', d, q) == EntryAt(p, d, q)
    ensures FramesFlow(n, p, p', d, base, tables, free, tables, free, {})
  {
    hide EntryAt, BehindRange;
    forall f | true ensures BehindRange(p', d, base, n, f) <==> BehindRange(p, d, base, n, f) {
      BehindKept(p, p', d, base, n, f);
    }
  }

  /** A second step that makes no table. */
  lemma FlowAlong(n: nat, p: Phys, p1: Phys, p2: Phys, d: int, base: nat, tables: set<int>, free: seq<int>,
                  tables1: set<int>, free1: seq<int>, free2: seq<int>, added: set<int>)
    requires |p| == |p1| == |p2| == FRAMES && 0 < d < FRAMES && base + n <= TABLES_PAGE
    requires FramesFlow(n, p, p1, d, base, tables, free, tables1, free1, {})
    requires FramesFlow(n, p1, p2, d, base, tables1, free1, tables1, free2, added)
    ensures FramesFlow(n, p, p2, d, base, tables, free, tables1, free2, added)
  {
    hide EntryAt, BehindRange;
  }

  /** A move: allocated, copied, freed. */
  lemma MoveFlow(n: nat, p: Phys, p1: Phys, p2: Phys, p3: Phys, d: int, base: nat, tables: set<int>, free: seq<int>,
                 tables1: set<int>, free1: seq<int>, free3: seq<int>)
    requires |p| == |p1| == |p2| == |p3| == FRAMES && 0 < d < FRAMES && base + n <= TABLES_PAGE
    requires FramesFlow(n, p, p1, d, base, tables, free, tables1, free1, {})
    requires forall q: Page :: base <= q < base + n ==> EntryAt(p2, d, q) == EntryAt(p1, d, q)
    requires FramesFlow(n, p2, p3, d, base, tables1, free1, tables1, free3, {})
    ensures FramesFlow(n, p, p3, d, base, tables, free, tables1, free3, {})
  {
    hide EntryAt, FramesFlow;
    SameEntriesFlow(n, p1, p2, d, base, tables1, free1);
    FlowAlong(n, p, p1, p2, d, base, tables, free, tables1, free1, free1, {});
    FlowAlong(n, p, p2, p3, d, base, tables, free, tables1, free1, free3, {});
  }
}
