/** A heap whose used pages, and no others, are mapped to frames of their own
    (the invariant at src/memory/mem.c:525-538), as a relation between colours and page tables. */
module BackedHeap {
  import opened Words
  import opened Entries
  import opened PageTables
  import opened HeapRuns
  import opened PageRanges

  /** A page is marked used exactly if it is present. */
  ghost predicate Agree(cs: Colors, n: nat, p: Phys, d: int, base: nat)
    requires n <= |cs| && |p| == FRAMES && 0 < d < FRAMES && base + n <= TABLES_PAGE
  {
    forall q: Page :: base <= q < base + n ==> (cs[q - base] != FREE <==> Present(EntryAt(p, d, q)))
  }

  /** The used heap pages are present. */
  ghost predicate UsedPresent(cs: Colors, n: nat, p: Phys, d: int, base: nat)
    requires n <= |cs| && |p| == FRAMES && 0 < d < FRAMES && base + n <= TABLES_PAGE
  {
    forall q: Page :: base <= q < base + n && cs[q - base] != FREE ==> Present(EntryAt(p, d, q))
  }

  /** The used heap pages are present, and frames behind heap pages are their own. */
  ghost predicate Backed(cs: Colors, n: nat, p: Phys, dirs: set<int>, d: int, tables: set<int>, free: seq<int>,
                         base: nat, window: Page)
    requires n <= |cs| && |p| == FRAMES && (forall d :: d in dirs ==> 0 < d < FRAMES) && 0 < d < FRAMES
    requires base + n <= TABLES_PAGE
  {
    UsedPresent(cs, n, p, d, base) && Freeable(p, dirs, d, tables, free, base, n, window)
  }

  /** The present pages that the heap thinks free, which others have mapped, are the same. */
  ghost predicate StraySame(cs: Colors, cs': Colors, n: nat, p: Phys, p': Phys, d: int, base: nat)
    requires n <= |cs| && n <= |cs'| && |p| == |p'| == FRAMES && 0 < d < FRAMES && base + n <= TABLES_PAGE
  {
    forall q: Page :: base <= q < base + n ==>
      (cs'[q - base] == FREE && Present(EntryAt(p', d, q)) <==> cs[q - base] == FREE && Present(EntryAt(p, d, q)))
  }

  /** Where nobody else maps heap pages, a page is marked used exactly if it is present. */
  lemma AgreementKept(cs: Colors, cs': Colors, n: nat, p: Phys, p': Phys, d: int, base: nat)
    requires n <= |cs| && n <= |cs'| && |p| == |p'| == FRAMES && 0 < d < FRAMES && base + n <= TABLES_PAGE
    requires UsedPresent(cs, n, p, d, base) && UsedPresent(cs', n, p', d, base) && StraySame(cs, cs', n, p, p', d, base)
    ensures Agree(cs', n, p', d, base) <==> Agree(cs, n, p, d, base)
  {
    hide EntryAt, Present;
  }

  /** The page has the same entry and its frame the same contents. */
  ghost predicate SamePage(p: Phys, p': Phys, d: int, q: Page)
    requires |p| == |p'| == FRAMES && 0 < d < FRAMES
  {
    EntryAt(p', d, q) == EntryAt(p, d, q) && p'[FrameOf(EntryAt(p, d, q))] == p[FrameOf(EntryAt(p, d, q))]
  }

  /** Present heap pages outside [s, e) are untouched. */
  ghost predicate OthersSame(n: nat, p: Phys, p': Phys, d: int, base: nat, s: nat, e: nat)
    requires |p| == |p'| == FRAMES && 0 < d < FRAMES && base + n <= TABLES_PAGE
  {
    forall q: Page :: base <= q < base + n && Present(EntryAt(p, d, q)) && !(base + s <= q < base + e) ==>
      SamePage(p, p', d, q)
  }

  lemma UsedIsMapped(cs: Colors, n: nat, p: Phys, dirs: set<int>, d: int, tables: set<int>, free: seq<int>, base: nat,
                     window: Page, s: nat, len: nat)
    requires n <= |cs| && |p| == FRAMES && (forall d :: d in dirs ==> 0 < d < FRAMES) && d in dirs
    requires base + n <= TABLES_PAGE && s + len <= n
    requires Backed(cs, n, p, dirs, d, tables, free, base, window) && forall i :: s <= i < s + len ==> cs[i] != FREE
    ensures Mapped(p, d, base + s, len) && Freeable(p, dirs, d, tables, free, base + s, len, window)
  {
    hide EntryAt, Present, FrameOf, OwnPage;
    forall q: Page | base + s <= q < base + s + len ensures Present(EntryAt(p, d, q)) {
      assert cs[q - base] != FREE;
    }
  }

  /** Pages [s, e) become used and get mapped to frames that were free. */
  lemma AllocKeepsBacked(cs: Colors, cs': Colors, n: nat, p: Phys, p': Phys, dirs: set<int>, d: int, tables: set<int>,
                         tables': set<int>, free: seq<int>, free': seq<int>, base: nat, s: nat, frames: seq<int>,
                         flags: FlagBits, window: Page)
    requires n <= |cs| && n <= |cs'| && |p| == |p'| == FRAMES && (forall d :: d in dirs ==> 0 < d < FRAMES) && d in dirs
    requires base + n <= TABLES_PAGE && s + |frames| <= n && window !in Pages(base, n)
    requires Backed(cs, n, p, dirs, d, tables, free, base, window) && Unmapped(p, d, base + s, |frames|)
    requires FramesApart(dirs, tables, free) && FramesTaken(free, tables, free', tables', frames)
    requires FreeUnmapped(p, dirs, window, free)
    requires RangeMapped(p, p', dirs, d, base + s, EntriesFor(frames, flags), window)
    requires SameFrames(p, p', dirs + tables')
    requires forall i :: 0 <= i < n ==> (cs'[i] != FREE <==> cs[i] != FREE || s <= i < s + |frames|)
    ensures Backed(cs', n, p', dirs, d, tables', free', base, window) && OthersSame(n, p, p', d, base, s, s)
    ensures StraySame(cs, cs', n, p, p', d, base)
  {
    hide EntryAt, Present, FrameOf, CreateEntry, Address, Pdi, OnlyPages, FramesApart, NoDuplicates, SameFrames,
      SlotsGrow, Freeable, FreeUnmapped, RangeMapped, FramesTaken, OwnPage;
    NewPagesOwn(p, p', dirs, d, tables, tables', free, free', base, n, base + s, frames, flags, window);
    forall q: Page | base <= q < base + n && Present(EntryAt(p, d, q)) ensures SamePage(p, p', d, q) {
      NewFrames(dirs, tables, tables', free, free', frames);
      UsedFrameKept(p, p', dirs, d, tables, tables', free, base, n, window, q);
    }
  }

  /** Pages that others map in the range of a heap get frames of their own too. */
  lemma NewPagesOwn(p: Phys, p': Phys, dirs: set<int>, d: int, tables: set<int>, tables': set<int>, free: seq<int>,
                    free': seq<int>, base: nat, n: nat, page: nat, frames: seq<int>, flags: FlagBits, window: Page)
    requires |p| == |p'| == FRAMES && (forall d :: d in dirs ==> 0 < d < FRAMES) && d in dirs && base + n <= TABLES_PAGE
    requires base <= page && page + |frames| <= base + n && window !in Pages(base, n)
    requires FramesApart(dirs, tables, free) && FramesTaken(free, tables, free', tables', frames)
    requires FreeUnmapped(p, dirs, window, free)
    requires Freeable(p, dirs, d, tables, free, base, n, window)
    requires RangeMapped(p, p', dirs, d, page, EntriesFor(frames, flags), window)
    ensures Freeable(p', dirs, d, tables', free', base, n, window)
    ensures forall q: Page :: base <= q < base + n ==>
              if page <= q < page + |frames| then Present(EntryAt(p', d, q)) else EntryAt(p', d, q) == EntryAt(p, d, q)
  {
    hide EntryAt, Present, FrameOf, CreateEntry, Address, Pdi, OnlyPages, FramesApart, NoDuplicates, SameFrames,
      SlotsGrow, Freeable, FreeUnmapped, RangeMapped, FramesTaken, OwnPage;
    forall q: Page | base <= q < base + n
      ensures if page <= q < page + |frames| then Present(EntryAt(p', d, q)) else EntryAt(p', d, q) == EntryAt(p, d, q)
      ensures OwnPage(p', dirs, d, tables', free', q, window)
    {
      if page <= q < page + |frames| {
        NewPageOwn(p, p', dirs, d, tables, tables', free, free', base, n, page, frames, flags, window, q);
      } else {
        OldPageOwn(p, p', dirs, d, tables, tables', free, free', base, n, page, frames, flags, window, q);
      }
    }
    EachOwn(p', dirs, d, tables', free', base, n, window);
  }

  /** The entries of the new pages. */
  lemma MappedTo(p: Phys, p': Phys, dirs: set<int>, d: int, page: nat, frames: seq<int>, flags: FlagBits, window: Page,
                 q: Page)
    requires |p| == |p'| == FRAMES && (forall d :: d in dirs ==> 0 < d < FRAMES) && d in dirs
    requires page + |frames| <= TABLES_PAGE
    requires AllInRange(frames) && RangeMapped(p, p', dirs, d, page, EntriesFor(frames, flags), window)
    requires page <= q < page + |frames|
    ensures Present(EntryAt(p', d, q)) && FrameOf(EntryAt(p', d, q)) == frames[q - page]
    ensures EntryAt(p', d, q) == CreateEntry(Address(frames[q - page]), flags)
  {
    hide EntryAt, Present, FrameOf, CreateEntry, Address, OnlyPages, SlotsGrow;
    var k := q - page;
    assert EntryAt(p', d, page + k) == EntriesFor(frames, flags)[k];
    FrameEntry(frames[k], flags);
  }

  lemma NewPageOwn(p: Phys, p': Phys, dirs: set<int>, d: int, tables: set<int>, tables': set<int>, free: seq<int>,
                   free': seq<int>, base: nat, n: nat, page: nat, frames: seq<int>, flags: FlagBits, window: Page,
                   q: Page)
    requires |p| == |p'| == FRAMES && (forall d :: d in dirs ==> 0 < d < FRAMES) && d in dirs && base + n <= TABLES_PAGE
    requires base <= page <= q < page + |frames| <= base + n && window !in Pages(base, n)
    requires FramesApart(dirs, tables, free) && FramesTaken(free, tables, free', tables', frames)
    requires FreeUnmapped(p, dirs, window, free)
    requires RangeMapped(p, p', dirs, d, page, EntriesFor(frames, flags), window)
    ensures Present(EntryAt(p', d, q)) && OwnPage(p', dirs, d, tables', free', q, window)
  {
    hide EntryAt, Present, FrameOf, CreateEntry, Address, Pdi, OnlyPages, SlotsGrow, OwnFrame, FreeUnmapped,
      MappedNowhere, NoDuplicates;
    NewFrames(dirs, tables, tables', free, free', frames);
    MappedTo(p, p', dirs, d, page, frames, flags, window, q);
    SlotOrder(q, q);
    FreeIsNowhere(p, dirs, window, free, frames[q - page]);
    forall r: Page | r in Pages(page, |frames|) + {window} && r != window && r != q
      ensures FrameOf(EntryAt(p', d, r)) != FrameOf(EntryAt(p', d, q))
    {
      MappedTo(p, p', dirs, d, page, frames, flags, window, r);
    }
    OwnNew(p, p', dirs, d, Pages(page, |frames|) + {window}, q, window);
  }

  lemma OldPageOwn(p: Phys, p': Phys, dirs: set<int>, d: int, tables: set<int>, tables': set<int>, free: seq<int>,
                   free': seq<int>, base: nat, n: nat, page: nat, frames: seq<int>, flags: FlagBits, window: Page,
                   q: Page)
    requires |p| == |p'| == FRAMES && (forall d :: d in dirs ==> 0 < d < FRAMES) && d in dirs && base + n <= TABLES_PAGE
    requires base <= page && page + |frames| <= base + n && base <= q < base + n && !(page <= q < page + |frames|)
    requires window !in Pages(base, n)
    requires FramesApart(dirs, tables, free) && FramesTaken(free, tables, free', tables', frames)
    requires Freeable(p, dirs, d, tables, free, base, n, window)
    requires RangeMapped(p, p', dirs, d, page, EntriesFor(frames, flags), window)
    ensures EntryAt(p', d, q) == EntryAt(p, d, q) && OwnPage(p', dirs, d, tables', free', q, window)
  {
    hide EntryAt, Present, FrameOf, CreateEntry, Address, Pdi, OnlyPages, SlotsGrow, OwnFrame, Freeable, NoDuplicates;
    NewFrames(dirs, tables, tables', free, free', frames);
    OutsideKept(p, p', dirs, d, base, n, page, |frames|, window, q);
    SlotOrder(q, q);
    if Present(EntryAt(p, d, q)) {
      ItsOwn(p, dirs, d, tables, free, base, n, window, q);
      forall r: Page | r in Pages(page, |frames|) + {window} && r != window && r != q
        ensures FrameOf(EntryAt(p', d, r)) != FrameOf(EntryAt(p, d, q))
      {
        MappedTo(p, p', dirs, d, page, frames, flags, window, r);
      }
      OwnKept(p, p', dirs, d, Pages(page, |frames|) + {window}, q, window);
    }
  }

  lemma FrameEntry(f: int, flags: FlagBits)
    requires 0 < f < FRAMES
    ensures var e := CreateEntry(Address(f), flags); Present(e) && FrameOf(e) == f
  {
    CreatedEntry(Address(f), flags);
    LowBits(f, 0);
  }

  lemma OutsideKept(p: Phys, p': Phys, dirs: set<int>, d: int, base: nat, n: nat, page: nat, len: nat, window: Page,
                    q: Page)
    requires |p| == |p'| == FRAMES && (forall d :: d in dirs ==> 0 < d < FRAMES) && d in dirs && base + n <= TABLES_PAGE
    requires window !in Pages(base, n) && base <= q < base + n && !(page <= q < page + len)
    requires OnlyPages(p, p', dirs, d, Pages(page, len) + {window})
    ensures EntryAt(p', d, q) == EntryAt(p, d, q)
  {
    hide EntryAt, Pdi, OnlyPages;
    assert q in Pages(base, n);
    KeptPage(p, p', dirs, d, Pages(page, len) + {window}, q);
  }

  lemma NewFrames(dirs: set<int>, tables: set<int>, tables': set<int>, free: seq<int>, free': seq<int>,
                  frames: seq<int>)
    requires FramesApart(dirs, tables, free) && FramesTaken(free, tables, free', tables', frames)
    ensures forall k :: 0 <= k < |frames| ==>
              0 < frames[k] < FRAMES && frames[k] !in dirs && frames[k] !in tables' && frames[k] !in free'
                                              && frames[k] in free
    ensures forall i, j :: 0 <= i < j < |frames| ==> frames[i] != frames[j]
    ensures forall f :: f in free' || (f in tables' && f !in tables) ==> f in free
    ensures tables <= tables'
  {
  }

  lemma UsedFrameKept(p: Phys, p': Phys, dirs: set<int>, d: int, tables: set<int>, tables': set<int>, free: seq<int>,
                      base: nat, n: nat, window: Page, q: Page)
    requires |p| == |p'| == FRAMES && (forall d :: d in dirs ==> 0 < d < FRAMES) && 0 < d < FRAMES
    requires base + n <= TABLES_PAGE
    requires base <= q < base + n && Freeable(p, dirs, d, tables, free, base, n, window)
    requires Present(EntryAt(p, d, q)) && EntryAt(p', d, q) == EntryAt(p, d, q)
    requires SameFrames(p, p', dirs + tables') && forall f :: f in tables' && f !in tables ==> f in free
    ensures SamePage(p, p', d, q)
  {
    hide EntryAt, Present, OwnFrame, Freeable;
    ItsOwn(p, dirs, d, tables, free, base, n, window, q);
  }

  /** Mapped pages [s, s + len) become free, get unmapped, and their frames are freed. */
  lemma FreeKeepsBacked(cs: Colors, cs': Colors, n: nat, p: Phys, p': Phys, dirs: set<int>, d: int, tables: set<int>,
                        free: seq<int>, free': seq<int>, base: nat, s: nat, len: nat, window: Page)
    requires n <= |cs| && n <= |cs'| && |p| == |p'| == FRAMES && (forall d :: d in dirs ==> 0 < d < FRAMES) && d in dirs
    requires base + n <= TABLES_PAGE && s + len <= n && window !in Pages(base, n)
    requires Backed(cs, n, p, dirs, d, tables, free, base, window)
    requires RangeFreed(p, p', dirs, d, tables, free, free', base + s, len, window)
    requires forall i :: s <= i < s + len ==> cs[i] != FREE
    requires forall i :: 0 <= i < n ==> (cs'[i] != FREE <==> cs[i] != FREE && !(s <= i < s + len))
    ensures Backed(cs', n, p', dirs, d, tables, free', base, window) && OthersSame(n, p, p', d, base, s, s + len)
    ensures StraySame(cs, cs', n, p, p', d, base)
  {
    hide EntryAt, Present, FrameOf, Pdi, OnlyPages, SameFrames, Backing, Freeable, OwnPage, Pages;
    NotPresentZero();
    forall q: Page | base <= q < base + n
      ensures if base + s <= q < base + s + len then EntryAt(p', d, q) == 0 else EntryAt(p', d, q) == EntryAt(p, d, q)
      ensures OwnPage(p', dirs, d, tables, free', q, window)
    {
      if base + s <= q < base + s + len {
        UnmappedOwn(p', dirs, d, tables, free', q, window);
      } else {
        KeptOwn(p, p', dirs, d, tables, free, free', base, n, base + s, len, window, q);
      }
    }
    EachOwn(p', dirs, d, tables, free', base, n, window);
    forall q: Page | base <= q < base + n && Present(EntryAt(p, d, q)) && !(base + s <= q < base + s + len)
      ensures SamePage(p, p', d, q)
    {
      KeptOwn(p, p', dirs, d, tables, free, free', base, n, base + s, len, window, q);
      FreedFrameKept(p, p', dirs, d, tables, free, base, n, base + s, len, window, q);
    }
  }

  lemma EachOwn(p: Phys, dirs: set<int>, d: int, tables: set<int>, free: seq<int>, page: nat, count: nat, window: Page)
    requires |p| == FRAMES && (forall d :: d in dirs ==> 0 < d < FRAMES) && 0 < d < FRAMES
    requires page + count <= TABLES_PAGE
    requires forall q: Page :: page <= q < page + count ==> OwnPage(p, dirs, d, tables, free, q, window)
    ensures Freeable(p, dirs, d, tables, free, page, count, window)
  {
    hide OwnPage;
  }

  lemma UnmappedOwn(p: Phys, dirs: set<int>, d: int, tables: set<int>, free: seq<int>, q: Page, window: Page)
    requires |p| == FRAMES && (forall d :: d in dirs ==> 0 < d < FRAMES) && 0 < d < FRAMES && !Present(EntryAt(p, d, q))
    ensures OwnPage(p, dirs, d, tables, free, q, window)
  {
    hide EntryAt, Present, FrameOf, OwnFrame;
  }

  /** A page that keeps its entry keeps its frame for its own when a range is freed. */
  lemma KeptOwn(p: Phys, p': Phys, dirs: set<int>, d: int, tables: set<int>, free: seq<int>, free': seq<int>, base: nat,
                n: nat, page: nat, len: nat, window: Page, q: Page)
    requires |p| == |p'| == FRAMES && (forall d :: d in dirs ==> 0 < d < FRAMES) && d in dirs && base + n <= TABLES_PAGE
    requires base <= page && page + len <= base + n && base <= q < base + n && !(page <= q < page + len)
    requires window !in Pages(base, n)
    requires Freeable(p, dirs, d, tables, free, base, n, window)
    requires RangeFreed(p, p', dirs, d, tables, free, free', page, len, window)
    ensures EntryAt(p', d, q) == EntryAt(p, d, q) && OwnPage(p', dirs, d, tables, free', q, window)
    ensures Present(EntryAt(p, d, q)) ==> FrameOf(EntryAt(p, d, q)) !in Backing(p, d, page, len)
  {
    hide EntryAt, Present, FrameOf, Pdi, OnlyPages, OwnFrame, Freeable, SameFrames, Backing;
    NotPresentZero();
    OutsideKept(p, p', dirs, d, base, n, page, len, window, q);
    SlotOrder(q, q);
    NotBacking(p, dirs, d, tables, free, base, n, page, len, q, window);
    if Present(EntryAt(p, d, q)) {
      ItsOwn(p, dirs, d, tables, free, base, n, window, q);
      OwnKept(p, p', dirs, d, Pages(page, len) + {window}, q, window);
    }
  }

  lemma FreedFrameKept(p: Phys, p': Phys, dirs: set<int>, d: int, tables: set<int>, free: seq<int>, base: nat, n: nat,
                       page: nat, len: nat, window: Page, q: Page)
    requires |p| == |p'| == FRAMES && (forall d :: d in dirs ==> 0 < d < FRAMES) && 0 < d < FRAMES
    requires base + n <= TABLES_PAGE
    requires base <= q < base + n && page + len <= TABLES_PAGE && Freeable(p, dirs, d, tables, free, base, n, window)
    requires Present(EntryAt(p, d, q)) && EntryAt(p', d, q) == EntryAt(p, d, q)
    requires FrameOf(EntryAt(p, d, q)) !in Backing(p, d, page, len)
    requires SameFrames(p, p', tables + SetOf(Backing(p, d, page, len)))
    ensures SamePage(p, p', d, q)
  {
    hide EntryAt, Present, Backing, OwnFrame, Freeable;
    ItsOwn(p, dirs, d, tables, free, base, n, window, q);
  }

  // ---------- contents of blocks ----------

  /** What is in the frame behind a page. */
  ghost function Content(p: Phys, d: int, q: Page): Frame
    requires |p| == FRAMES && 0 < d < FRAMES
  {
    p[FrameOf(EntryAt(p, d, q))]
  }

  /** All pages of a block have these flags. */
  ghost predicate AllFlags(p: Phys, d: int, s: nat, len: nat, flags: FlagBits)
    requires |p| == FRAMES && 0 < d < FRAMES && s + len <= TABLES_PAGE
  {
    forall q: Page :: s <= q < s + len ==> Flags(EntryAt(p, d, q)) == flags
  }

  /** The `len` pages from `s'` on have the contents that those from `s` on had. */
  ghost predicate SameContents(p: Phys, p': Phys, d: int, s: nat, s': nat, len: nat)
    requires |p| == |p'| == FRAMES && 0 < d < FRAMES && s + len <= TABLES_PAGE && s' + len <= TABLES_PAGE
  {
    forall q: Page :: s' <= q < s' + len ==> Content(p', d, q) == Content(p, d, q - s' + s)
  }

  /** If all pages of the block from `s` on had the same flags, those from `s'` on have them now. */
  ghost predicate SameFlags(p: Phys, p': Phys, d: int, s: nat, len: nat, s': nat, newLen: nat)
    requires |p| == |p'| == FRAMES && 0 < d < FRAMES && s + len <= TABLES_PAGE && s' + newLen <= TABLES_PAGE
  {
    forall flags: FlagBits :: AllFlags(p, d, s, len, flags) && len > 0 ==> AllFlags(p', d, s', newLen, flags)
  }

  /** The block at `start` became the block at `newStart`: the contents of the pages that both have
      are the same, so are the flags of all pages, and other blocks are untouched. */
  ghost predicate BlockKept(n: nat, p: Phys, p': Phys, d: int, base: nat, start: nat, len: nat, newStart: nat,
                            newLen: nat)
    requires |p| == |p'| == FRAMES && 0 < d < FRAMES && base + n <= TABLES_PAGE
    requires start + len <= n && newStart + newLen <= n
  {
    && SameContents(p, p', d, base + start, base + newStart, if len < newLen then len else newLen)
    && SameFlags(p, p', d, base + start, len, base + newStart, newLen)
    && OthersSame(n, p, p', d, base, start, start + len)
  }

  lemma ShrunkKept(n: nat, p: Phys, p': Phys, d: int, base: nat, start: nat, len: nat, newLen: nat)
    requires |p| == |p'| == FRAMES && 0 < d < FRAMES && base + n <= TABLES_PAGE
    requires newLen <= len && start + len <= n && Mapped(p, d, base + start, len)
    requires OthersSame(n, p, p', d, base, start + newLen, start + len)
    ensures BlockKept(n, p, p', d, base, start, len, start, newLen)
  {
    hide EntryAt, Flags, Present;
    forall q: Page | base + start <= q < base + start + newLen
      ensures EntryAt(p', d, q) == EntryAt(p, d, q) && Content(p', d, q) == Content(p, d, q)
    {
      assert Present(EntryAt(p, d, q)) && SamePage(p, p', d, q);
    }
  }

  /** Entries for new frames have the wanted flags. */
  lemma NewFlags(p: Phys, p': Phys, dirs: set<int>, d: int, page: nat, frames: seq<int>, flags: FlagBits, window: Page)
    requires |p| == |p'| == FRAMES && (forall d :: d in dirs ==> 0 < d < FRAMES) && d in dirs
    requires page + |frames| <= TABLES_PAGE
    requires AllInRange(frames) && RangeMapped(p, p', dirs, d, page, EntriesFor(frames, flags), window)
    requires flags % 2 == 1
    ensures AllFlags(p', d, page, |frames|, flags)
  {
    hide EntryAt, Flags, CreateEntry, Address, Present, FrameOf, RangeMapped;
    forall q: Page | page <= q < page + |frames| ensures Flags(EntryAt(p', d, q)) == flags {
      MappedTo(p, p', dirs, d, page, frames, flags, window, q);
      CreatedEntry(Address(frames[q - page]), flags);
    }
  }

  lemma GrownKept(n: nat, p: Phys, p': Phys, d: int, base: nat, start: nat, len: nat, newLen: nat, flags: FlagBits)
    requires |p| == |p'| == FRAMES && 0 < d < FRAMES && base + n <= TABLES_PAGE
    requires 0 < len <= newLen && start + newLen <= n && Mapped(p, d, base + start, len)
    requires OthersSame(n, p, p', d, base, start + len, start + len)
    requires flags == Flags(EntryAt(p, d, base + start)) && AllFlags(p', d, base + start + len, newLen - len, flags)
    ensures BlockKept(n, p, p', d, base, start, len, start, newLen)
  {
    hide EntryAt, Flags, Present;
    forall q: Page | base + start <= q < base + start + len
      ensures EntryAt(p', d, q) == EntryAt(p, d, q) && Content(p', d, q) == Content(p, d, q)
    {
      assert Present(EntryAt(p, d, q)) && SamePage(p, p', d, q);
    }
  }

  // ---------- what is not the heap's ----------

  ghost predicate BehindHeap(cs: Colors, n: nat, p: Phys, d: int, base: nat, f: int)
    requires n <= |cs| && |p| == FRAMES && 0 < d < FRAMES && base + n <= TABLES_PAGE
  {
    exists q: Page :: base <= q < base + n && cs[q - base] != FREE && FrameOf(EntryAt(p, d, q)) == f
  }

  /** No entry changes but those of heap pages and the window, and no frame but directories, tables,
      free frames and those behind the heap. */
  ghost predicate ElsewhereSame(cs: Colors, n: nat, p: Phys, p': Phys, dirs: set<int>, d: int, tables: set<int>,
                                free: seq<int>, base: nat, window: Page)
    requires n <= |cs| && |p| == |p'| == FRAMES && (forall d :: d in dirs ==> 0 < d < FRAMES) && d in dirs
    requires base + n <= TABLES_PAGE
  {
    && OnlyPages(p, p', dirs, d, Pages(base, n) + {window})
    && forall f :: 0 <= f < FRAMES && f !in dirs && f !in tables && f !in free && !BehindHeap(cs, n, p, d, base, f) ==>
         p'[f] == p[f]
  }

  lemma FewerPages(p: Phys, p': Phys, dirs: set<int>, d: int, a: set<Page>, b: set<Page>)
    requires |p| == |p'| == FRAMES && (forall d :: d in dirs ==> 0 < d < FRAMES) && d in dirs
    requires OnlyPages(p, p', dirs, d, a) && a <= b
    ensures OnlyPages(p, p', dirs, d, b)
  {
    hide EntryAt, Pdi, Shared;
  }

  lemma PagesWithin(base: nat, n: nat, page: nat, len: nat, window: Page)
    requires base <= page && page + len <= base + n
    ensures Pages(page, len) + {window} <= Pages(base, n) + {window}
  {
  }

  lemma AllocElsewhere(cs: Colors, n: nat, p: Phys, p': Phys, dirs: set<int>, d: int, tables: set<int>,
                       tables': set<int>, free: seq<int>, free': seq<int>, base: nat, page: nat, frames: seq<int>,
                       entries: seq<u32>, window: Page)
    requires n <= |cs| && |p| == |p'| == FRAMES && (forall d :: d in dirs ==> 0 < d < FRAMES) && d in dirs
    requires base + n <= TABLES_PAGE
    requires base <= page && page + |entries| <= base + n && RangeMapped(p, p', dirs, d, page, entries, window)
    requires SameFrames(p, p', dirs + tables') && FramesTaken(free, tables, free', tables', frames)
    ensures ElsewhereSame(cs, n, p, p', dirs, d, tables, free, base, window)
  {
    hide EntryAt, OnlyPages, BehindHeap, SlotsGrow, Pages;
    PagesWithin(base, n, page, |entries|, window);
    FewerPages(p, p', dirs, d, Pages(page, |entries|) + {window}, Pages(base, n) + {window});
  }

  lemma FreeElsewhere(cs: Colors, n: nat, p: Phys, p': Phys, dirs: set<int>, d: int, tables: set<int>, free: seq<int>,
                      free': seq<int>, base: nat, s: nat, len: nat, window: Page)
    requires n <= |cs| && |p| == |p'| == FRAMES && (forall d :: d in dirs ==> 0 < d < FRAMES) && d in dirs
    requires base + n <= TABLES_PAGE
    requires s + len <= n && (forall i :: s <= i < s + len ==> cs[i] != FREE)
    requires RangeFreed(p, p', dirs, d, tables, free, free', base + s, len, window)
    ensures ElsewhereSame(cs, n, p, p', dirs, d, tables, free, base, window)
  {
    hide EntryAt, OnlyPages, BehindHeap, Pages, FrameOf, Backing, Mapped, SameDirectories;
    PagesWithin(base, n, base + s, len, window);
    FewerPages(p, p', dirs, d, Pages(base + s, len) + {window}, Pages(base, n) + {window});
    forall f | f in SetOf(Backing(p, d, base + s, len)) ensures BehindHeap(cs, n, p, d, base, f) {
      BackingIsBehind(cs, n, p, d, base, s, len, f);
    }
  }

  lemma BackingIsBehind(cs: Colors, n: nat, p: Phys, d: int, base: nat, s: nat, len: nat, f: int)
    requires n <= |cs| && |p| == FRAMES && 0 < d < FRAMES && base + n <= TABLES_PAGE && s + len <= n
    requires forall i :: s <= i < s + len ==> cs[i] != FREE
    requires f in Backing(p, d, base + s, len)
    ensures BehindHeap(cs, n, p, d, base, f)
  {
    hide EntryAt, FrameOf;
    var k :| 0 <= k < len && Backing(p, d, base + s, len)[k] == f;
    var q: Page := base + s + len - 1 - k;
    assert cs[q - base] != FREE && FrameOf(EntryAt(p, d, q)) == f;
  }
}
