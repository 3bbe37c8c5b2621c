/** What operations on one part of memory leave of the others: of a heap, of another heap in the same
    space, and of the memory of user programs (src/memory/mem.c). */
module Separation {
  import opened Words
  import opened Entries
  import opened PageTables
  import opened Paging
  import opened HeapRuns
  import opened PageRanges
  import opened BackedHeap
  import opened FrameFlow
  import opened NewSpaces
  import opened KernelMemory
  import opened MapLoops
  import opened Transfers
  import opened AddressSpaces

  /** The kernel has a use for the frame: as a directory, a table, a free frame or behind a heap. */
  ghost predicate ReservedIn(p: Phys, dirs: set<int>, d: int, tables: set<int>, free: seq<int>, baseA: nat, nA: nat,
                             baseB: nat, nB: nat, f: int)
    requires |p| == FRAMES && 0 < d < FRAMES && baseA + nA <= TABLES_PAGE && baseB + nB <= TABLES_PAGE
  {
    f in dirs || f in tables || f in free || BehindRange(p, d, baseA, nA, f) || BehindRange(p, d, baseB, nB, f)
  }

  // ---------- what an operation on one heap means for the other ----------

  /** What an operation on the block [s, e) of a heap changes. */
  ghost predicate HeapStep(cs: Colors, cs': Colors, n: nat, p: Phys, p': Phys, dirs: set<int>, d: int, base: nat,
                           tables: set<int>, free: seq<int>, tables': set<int>, free': seq<int>, window: Page, s: nat,
                           e: nat, added: set<int>)
    requires n <= |cs| && n <= |cs'| && |p| == |p'| == FRAMES && (forall d :: d in dirs ==> 0 < d < FRAMES)
    requires d in dirs && base + n <= TABLES_PAGE
  {
    && OthersSame(n, p, p', d, base, s, e) && e <= n && (forall i :: s <= i < e ==> cs[i] != FREE)
    && StraySame(cs, cs', n, p, p', d, base)
    && ElsewhereSame(cs, n, p, p', dirs, d, tables, free, base, window)
    && FramesFlow(n, p, p', d, base, tables, free, tables', free', added)
  }

  /** The pages of the one heap are also those of the other one, or as they were. */
  lemma OtherBehind(p: Phys, p': Phys, dirs: set<int>, d: int, baseA: nat, nA: nat, baseB: nat, nB: nat, window: Page,
                    f: int)
    requires |p| == |p'| == FRAMES && (forall d :: d in dirs ==> 0 < d < FRAMES) && d in dirs
    requires window < baseA && baseA + nA <= TABLES_PAGE && window < baseB && baseB + nB <= TABLES_PAGE
    requires OnlyPages(p, p', dirs, d, Pages(baseA, nA) + {window})
    ensures BehindRange(p', d, baseB, nB, f) ==> BehindRange(p, d, baseB, nB, f) || BehindRange(p', d, baseA, nA, f)
    ensures BehindRange(p, d, baseB, nB, f) ==> BehindRange(p', d, baseB, nB, f) || BehindRange(p, d, baseA, nA, f)
  {
    hide EntryAt, Present, FrameOf, OnlyPages;
    forall q: Page | baseB <= q < baseB + nB && !(baseA <= q < baseA + nA)
      ensures EntryAt(p', d, q) == EntryAt(p, d, q)
    {
      KeptPage(p, p', dirs, d, Pages(baseA, nA) + {window}, q);
    }
  }

  /** Heap operations move frames about but neither lose nor take any. */
  lemma HeapConserves(p: Phys, p': Phys, dirs: set<int>, d: int, tables: set<int>, free: seq<int>, tables': set<int>,
                      free': seq<int>, baseA: nat, nA: nat, baseB: nat, nB: nat, window: Page, added: set<int>, f: int)
    requires |p| == |p'| == FRAMES && (forall d :: d in dirs ==> 0 < d < FRAMES) && d in dirs
    requires window < baseA && baseA + nA <= TABLES_PAGE && window < baseB && baseB + nB <= TABLES_PAGE
    requires OnlyPages(p, p', dirs, d, Pages(baseA, nA) + {window})
    requires FramesFlow(nA, p, p', d, baseA, tables, free, tables', free', added)
    ensures ReservedIn(p', dirs + added, d, tables', free', baseA, nA, baseB, nB, f)
       <==> ReservedIn(p, dirs, d, tables, free, baseA, nA, baseB, nB, f)
  {
    hide EntryAt, BehindRange, OnlyPages;
    OtherBehind(p, p', dirs, d, baseA, nA, baseB, nB, window, f);
  }

  lemma ReservedEitherWay(p: Phys, dirs: set<int>, d: int, tables: set<int>, free: seq<int>, baseA: nat, nA: nat,
                          baseB: nat, nB: nat, f: int)
    requires |p| == FRAMES && 0 < d < FRAMES && baseA + nA <= TABLES_PAGE && baseB + nB <= TABLES_PAGE
    ensures ReservedIn(p, dirs, d, tables, free, baseA, nA, baseB, nB, f)
       <==> ReservedIn(p, dirs, d, tables, free, baseB, nB, baseA, nA, f)
  {
    hide BehindRange;
  }

  /** The same frames are reserved. */
  ghost predicate Conserved(p: Phys, p': Phys, dirs: set<int>, dirs': set<int>, d: int, tables: set<int>,
                            free: seq<int>, tables': set<int>, free': seq<int>, baseA: nat, nA: nat, baseB: nat,
                            nB: nat)
    requires |p| == |p'| == FRAMES && 0 < d < FRAMES && baseA + nA <= TABLES_PAGE && baseB + nB <= TABLES_PAGE
  {
    forall f :: ReservedIn(p', dirs', d, tables', free', baseA, nA, baseB, nB, f)
           <==> ReservedIn(p, dirs, d, tables, free, baseA, nA, baseB, nB, f)
  }

  /** After an operation on one heap the other one is backed as before and keeps its contents, and no
      frame is lost or comes from elsewhere. */
  lemma HeapStepKeeps(csA: Colors, csA': Colors, nA: nat, baseA: nat, csB: Colors, nB: nat, baseB: nat, p: Phys,
                      p': Phys, dirs: set<int>, d: int, tables: set<int>, free: seq<int>, tables': set<int>,
                      free': seq<int>, window: Page, s: nat, e: nat)
    requires nA <= |csA| && nA <= |csA'| && nB <= |csB| && |p| == |p'| == FRAMES
    requires (forall d :: d in dirs ==> 0 < d < FRAMES) && d in dirs
    requires window < baseA && baseA + nA <= TABLES_PAGE && window < baseB && baseB + nB <= TABLES_PAGE
    requires Backed(csA, nA, p, dirs, d, tables, free, baseA, window)
    requires Backed(csA', nA, p', dirs, d, tables', free', baseA, window)
    requires Backed(csB, nB, p, dirs, d, tables, free, baseB, window) && UsedApart(csA, nA, baseA, csB, nB, baseB)
    requires FreeUnmapped(p', dirs, window, free')
    requires HeapStep(csA, csA', nA, p, p', dirs, d, baseA, tables, free, tables', free', window, s, e, {})
    ensures Backed(csB, nB, p', dirs, d, tables', free', baseB, window) && UsedApart(csA', nA, baseA, csB, nB, baseB)
    ensures forall q: Page :: UsedAt(csB, nB, baseB, q) ==> SamePage(p, p', d, q)
    ensures Conserved(p, p', dirs, dirs, d, tables, free, tables', free', baseA, nA, baseB, nB)
    ensures Conserved(p, p', dirs, dirs, d, tables, free, tables', free', baseB, nB, baseA, nA)
  {
    hide EntryAt, Backed, UsedApart, BehindHeap, OnlyPages, FreeUnmapped, OthersSame, StraySame, BehindRange, NewTables,
      ReservedIn, SamePage, UsedAt;
    OtherHeapKept(csA, csA', nA, baseA, s, e, csB, nB, baseB, p, p', dirs, d, tables, free, tables', free', window);
    assert dirs + {} == dirs;
    forall f | true
      ensures ReservedIn(p', dirs, d, tables', free', baseA, nA, baseB, nB, f)
         <==> ReservedIn(p, dirs, d, tables, free, baseA, nA, baseB, nB, f)
      ensures ReservedIn(p', dirs, d, tables', free', baseB, nB, baseA, nA, f)
         <==> ReservedIn(p, dirs, d, tables, free, baseB, nB, baseA, nA, f)
    {
      HeapConserves(p, p', dirs, d, tables, free, tables', free', baseA, nA, baseB, nB, window, {}, f);
      ReservedEitherWay(p, dirs, d, tables, free, baseA, nA, baseB, nB, f);
      ReservedEitherWay(p', dirs, d, tables', free', baseA, nA, baseB, nB, f);
    }
  }

  /** The same for a new directory. */
  lemma NewSpaceKeeps(csA: Colors, csA': Colors, nA: nat, baseA: nat, csB: Colors, nB: nat, baseB: nat, p: Phys,
                      p': Phys, dirs: set<int>, d: int, tables: set<int>, free: seq<int>, tables': set<int>,
                      free': seq<int>, window: Page, f: int)
    requires nA <= |csA| && nA <= |csA'| && nB <= |csB| && |p| == |p'| == FRAMES
    requires (forall d :: d in dirs ==> 0 < d < FRAMES) && d in dirs && 0 < f < FRAMES && f in free
    requires window < baseA && baseA + nA <= TABLES_PAGE && window < baseB && baseB + nB <= TABLES_PAGE
    requires Backed(csA, nA, p, dirs, d, tables, free, baseA, window)
    requires Backed(csA', nA, p', dirs + {f}, d, tables', free', baseA, window)
    requires Backed(csB, nB, p, dirs, d, tables, free, baseB, window) && UsedApart(csA, nA, baseA, csB, nB, baseB)
    requires FreeUnmapped(p, dirs, window, free) && FreeUnmapped(p', dirs + {f}, window, free')
    requires NewSpace(p', d, f) && SameShared(p', d, f)
    requires HeapStep(csA, csA', nA, p, p', dirs, d, baseA, tables, free, tables', free', window, 0, 0, {f})
    ensures Backed(csB, nB, p', dirs + {f}, d, tables', free', baseB, window)
    ensures UsedApart(csA', nA, baseA, csB, nB, baseB)
    ensures forall q: Page :: UsedAt(csB, nB, baseB, q) ==> SamePage(p, p', d, q)
    ensures Conserved(p, p', dirs, dirs + {f}, d, tables, free, tables', free', baseA, nA, baseB, nB)
  {
    hide EntryAt, Backed, UsedApart, BehindHeap, OnlyPages, FreeUnmapped, OthersSame, StraySame, BehindRange, NewTables,
      ReservedIn, SamePage, UsedAt, NewSpace, SameShared;
    OtherHeapJoined(csA, csA', nA, baseA, csB, nB, baseB, p, p', dirs, d, tables, free, tables', free', window, f);
    forall g | true
      ensures ReservedIn(p', dirs + {f}, d, tables', free', baseA, nA, baseB, nB, g)
         <==> ReservedIn(p, dirs, d, tables, free, baseA, nA, baseB, nB, g)
    {
      HeapConserves(p, p', dirs, d, tables, free, tables', free', baseA, nA, baseB, nB, window, {f}, g);
    }
  }

  // ---------- what a system call means for a heap ----------

  /** What a system call changes: no entry in the range of the heap, and elsewhere no page gets a frame
      from behind it. `frames` are the free frames that it hands out. */
  ghost predicate CallStep(p: Phys, p': Phys, dirs: set<int>, d: int, tables: set<int>, free: seq<int>,
                           tables': set<int>, free': seq<int>, frames: seq<int>, base: nat, n: nat, window: Page)
    requires |p| == |p'| == FRAMES && (forall d :: d in dirs ==> 0 < d < FRAMES) && d in dirs
    requires base + n <= TABLES_PAGE
  {
    && (forall q: Page :: base <= q < base + n ==> EntryAt(p', d, q) == EntryAt(p, d, q))
    && Strangers(p, p', dirs, d, base, n, window) && SlotsStay(p, p', dirs)
    && SameFrames(p, p', dirs + tables') && FramesTaken(free, tables, free', tables', frames)
  }

  ghost predicate Strangers(p: Phys, p': Phys, dirs: set<int>, d: int, base: nat, n: nat, window: Page)
    requires |p| == |p'| == FRAMES && (forall d :: d in dirs ==> 0 < d < FRAMES) && d in dirs
    requires base + n <= TABLES_PAGE
  {
    forall d', q: Page :: d' in dirs && Pdi(q) < 1023 && q != window && Present(EntryAt(p', d', q)) ==>
      EntryAt(p', d', q) == EntryAt(p, d', q) || !BehindRange(p, d, base, n, FrameOf(EntryAt(p', d', q)))
  }

  /** A heap page keeps its frame for its own. */
  lemma StillOwn(p: Phys, p': Phys, dirs: set<int>, d: int, base: nat, n: nat, window: Page, q: Page)
    requires |p| == |p'| == FRAMES && (forall d :: d in dirs ==> 0 < d < FRAMES) && d in dirs
    requires base + n <= TABLES_PAGE && base <= q < base + n && Present(EntryAt(p, d, q))
    requires OwnFrame(p, dirs, d, q, window) && EntryAt(p', d, q) == EntryAt(p, d, q)
    requires Strangers(p, p', dirs, d, base, n, window) && SlotsStay(p, p', dirs)
    ensures OwnFrame(p', dirs, d, q, window)
  {
    hide EntryAt, Present, FrameOf, Pdi, BehindRange;
    BehindAt(p, d, base, n, q);
    SlotOrder(q, q);
  }

  /** A heap whose pages a system call leaves out is backed as before and keeps its contents. */
  lemma HeapLeftAlone(cs: Colors, n: nat, p: Phys, p': Phys, dirs: set<int>, d: int, tables: set<int>, free: seq<int>,
                      tables': set<int>, free': seq<int>, frames: seq<int>, base: nat, window: Page)
    requires n <= |cs| && |p| == |p'| == FRAMES && (forall d :: d in dirs ==> 0 < d < FRAMES) && d in dirs
    requires base + n <= TABLES_PAGE && window < base
    requires Backed(cs, n, p, dirs, d, tables, free, base, window)
    requires CallStep(p, p', dirs, d, tables, free, tables', free', frames, base, n, window)
    ensures Backed(cs, n, p', dirs, d, tables', free', base, window)
    ensures forall q: Page :: UsedAt(cs, n, base, q) ==> SamePage(p, p', d, q)
  {
    hide EntryAt, Present, FrameOf, Pdi, OwnFrame, Freeable, Strangers, SlotsStay, NoDuplicates;
    forall q: Page | base <= q < base + n
      ensures OwnPage(p', dirs, d, tables', free', q, window)
      ensures Present(EntryAt(p, d, q)) ==> SamePage(p, p', d, q)
    {
      if Present(EntryAt(p, d, q)) {
        ItsOwn(p, dirs, d, tables, free, base, n, window, q);
        StillOwn(p, p', dirs, d, base, n, window, q);
      }
    }
    EachOwn(p', dirs, d, tables', free', base, n, window);
  }

  /** System calls take frames for tables from the free frames, and leave the others but for those that
      they hand out. */
  lemma CallConserves(p: Phys, p': Phys, dirs: set<int>, d: int, tables: set<int>, free: seq<int>, tables': set<int>,
                      free': seq<int>, frames: seq<int>, baseA: nat, nA: nat, baseB: nat, nB: nat, window: Page, f: int)
    requires |p| == |p'| == FRAMES && (forall d :: d in dirs ==> 0 < d < FRAMES) && d in dirs
    requires baseA + nA <= TABLES_PAGE && baseB + nB <= TABLES_PAGE
    requires CallStep(p, p', dirs, d, tables, free, tables', free', frames, baseA, nA, window)
    requires CallStep(p, p', dirs, d, tables, free, tables', free', frames, baseB, nB, window)
    ensures ReservedIn(p', dirs, d, tables', free', baseA, nA, baseB, nB, f) || f in frames
       <==> ReservedIn(p, dirs, d, tables, free, baseA, nA, baseB, nB, f)
  {
    hide EntryAt, Present, FrameOf, BehindRange, Strangers, SlotsStay, NoDuplicates, SameFrames;
    BehindKept(p, p', d, baseA, nA, f);
    BehindKept(p, p', d, baseB, nB, f);
  }

  ghost predicate RangesApart(page: nat, count: nat, base: nat, n: nat) {
    page + count <= base || base + n <= page
  }

  /** Mapping pages outside the heap to frames that are not behind it. */
  lemma MapStep(p: Phys, p': Phys, dirs: set<int>, d: int, tables: set<int>, free: seq<int>, tables': set<int>,
                free': seq<int>, base: nat, n: nat, window: Page, dd: int, page: nat, paddrs: seq<u32>,
                flags: FlagBits)
    requires |p| == |p'| == FRAMES && (forall d :: d in dirs ==> 0 < d < FRAMES) && d in dirs && dd in dirs
    requires base + n <= TABLES_PAGE && page + |paddrs| <= TABLES_PAGE && window < base
    requires RangesApart(page, |paddrs|, base, n)
    requires forall k :: 0 <= k < |paddrs| ==> !BehindRange(p, d, base, n, FrameOf(paddrs[k]))
    requires MappedSoFar(p, p', dirs, dd, page, MadeEntries(paddrs, flags), |paddrs|, window, free, tables, free',
               tables')
    ensures CallStep(p, p', dirs, d, tables, free, tables', free', [], base, n, window)
  {
    hide EntryAt, Present, FrameOf, Pdi, OnlyPages, SlotsGrow, BehindRange, SameFrames, FramesTaken, CreateEntry,
      RangeWritten, Missing, SlotsStay, Pages;
    var changed := Pages(page, |paddrs|) + {window};
    TablesStay(p, p', dirs, dd, changed);
    forall q: Page | base <= q < base + n ensures EntryAt(p', d, q) == EntryAt(p, d, q) {
      NotInRange(page, |paddrs|, base, n, window, q);
      KeptInSpace(p, p', dirs, dd, changed, d, q);
    }
    forall d', q: Page | d' in dirs && Pdi(q) < 1023 && q != window && Present(EntryAt(p', d', q))
      ensures EntryAt(p', d', q) == EntryAt(p, d', q) || !BehindRange(p, d, base, n, FrameOf(EntryAt(p', d', q)))
    {
      ChangedEntry(p, p', dirs, dd, changed, d', q);
      InPagesOnly(page, |paddrs|, q);
      if q in Pages(page, |paddrs|) {
        assert EntryAt(p', dd, page + (q - page)) == MadeEntries(paddrs, flags)[q - page];
        CreatedEntry(paddrs[q - page], flags);
      }
    }
  }

  /** Giving pages outside the heap frames that were free. */
  lemma AllocStep(p: Phys, p': Phys, dirs: set<int>, d: int, tables: set<int>, free: seq<int>, tables': set<int>,
                  free': seq<int>, frames: seq<int>, base: nat, n: nat, window: Page, page: nat, flags: FlagBits)
    requires |p| == |p'| == FRAMES && (forall d :: d in dirs ==> 0 < d < FRAMES) && d in dirs
    requires base + n <= TABLES_PAGE && page + |frames| <= TABLES_PAGE && window < base
    requires RangesApart(page, |frames|, base, n) && Freeable(p, dirs, d, tables, free, base, n, window)
    requires FramesTaken(free, tables, free', tables', frames) && SameFrames(p, p', dirs + tables')
    requires RangeMapped(p, p', dirs, d, page, EntriesFor(frames, flags), window)
    ensures CallStep(p, p', dirs, d, tables, free, tables', free', frames, base, n, window)
  {
    hide EntryAt, Present, FrameOf, Pdi, OnlyPages, SlotsGrow, SameFrames, NoDuplicates, CreateEntry, SlotsStay, Pages,
      OwnFrame, Freeable;
    var changed := Pages(page, |frames|) + {window};
    TablesStay(p, p', dirs, d, changed);
    forall q: Page | base <= q < base + n ensures EntryAt(p', d, q) == EntryAt(p, d, q) {
      NotInRange(page, |frames|, base, n, window, q);
      KeptInSpace(p, p', dirs, d, changed, d, q);
    }
    forall d', q: Page | d' in dirs && Pdi(q) < 1023 && q != window && Present(EntryAt(p', d', q))
      ensures EntryAt(p', d', q) == EntryAt(p, d', q) || !BehindRange(p, d, base, n, FrameOf(EntryAt(p', d', q)))
    {
      ChangedEntry(p, p', dirs, d, changed, d', q);
      InPagesOnly(page, |frames|, q);
      if q in Pages(page, |frames|) {
        MappedTo(p, p', dirs, d, page, frames, flags, window, q);
        FreeNotBehind(p, dirs, d, tables, free, base, n, window, frames[q - page]);
      }
    }
  }

  lemma FreeNotBehind(p: Phys, dirs: set<int>, d: int, tables: set<int>, free: seq<int>, base: nat, n: nat,
                      window: Page, f: int)
    requires |p| == FRAMES && (forall d :: d in dirs ==> 0 < d < FRAMES) && d in dirs && base + n <= TABLES_PAGE
    requires Freeable(p, dirs, d, tables, free, base, n, window) && f in free
    ensures !BehindRange(p, d, base, n, f)
  {
    hide EntryAt, Present, FrameOf, OwnFrame, Freeable;
    forall q: Page | base <= q < base + n && Present(EntryAt(p, d, q)) ensures FrameOf(EntryAt(p, d, q)) != f {
      ItsOwn(p, dirs, d, tables, free, base, n, window, q);
    }
  }

  /** Frames that are handed out are reserved no longer. */
  lemma HandedOut(p: Phys, p': Phys, dirs: set<int>, d: int, tables: set<int>, free: seq<int>, tables': set<int>,
                  free': seq<int>, frames: seq<int>, baseA: nat, nA: nat, baseB: nat, nB: nat, window: Page, f: int)
    requires |p| == |p'| == FRAMES && (forall d :: d in dirs ==> 0 < d < FRAMES) && d in dirs
    requires baseA + nA <= TABLES_PAGE && baseB + nB <= TABLES_PAGE && FramesApart(dirs, tables, free) && f in frames
    requires Freeable(p, dirs, d, tables, free, baseA, nA, window)
    requires Freeable(p, dirs, d, tables, free, baseB, nB, window)
    requires CallStep(p, p', dirs, d, tables, free, tables', free', frames, baseA, nA, window)
    requires CallStep(p, p', dirs, d, tables, free, tables', free', frames, baseB, nB, window)
    ensures !ReservedIn(p', dirs, d, tables', free', baseA, nA, baseB, nB, f)
  {
    hide EntryAt, Present, FrameOf, BehindRange, Strangers, SlotsStay, SameFrames, Freeable;
    BehindKept(p, p', d, baseA, nA, f);
    BehindKept(p, p', d, baseB, nB, f);
    FreeNotBehind(p, dirs, d, tables, free, baseA, nA, window, f);
    FreeNotBehind(p, dirs, d, tables, free, baseB, nB, window, f);
  }

  // ---------- another space becomes the current one ----------

  /** Two spaces have the same directory entries for the pages of the range. */
  ghost predicate SameSlots(p: Phys, d: int, d': int, base: nat, n: nat)
    requires |p| == FRAMES && 0 < d < FRAMES && 0 < d' < FRAMES
  {
    forall q: Page :: base <= q < base + n ==> p[d'][Pdi(q)] == p[d][Pdi(q)]
  }

  lemma SameSlotsEntry(p: Phys, d: int, d': int, base: nat, n: nat, q: Page)
    requires |p| == FRAMES && 0 < d < FRAMES && 0 < d' < FRAMES && SameSlots(p, d, d', base, n) && base <= q < base + n
    ensures EntryAt(p, d', q) == EntryAt(p, d, q)
    ensures Present(EntryAt(p, d, q)) ==> SharesTable(p, d', d, Pdi(q))
  {
    hide FrameOf, Present, Pdi, Pti;
    NotPresentZero();
  }

  /** In a space that has the same tables there, the heap is backed as well, by the same frames. */
  lemma SwitchKeeps(cs: Colors, n: nat, p: Phys, dirs: set<int>, d: int, d': int, tables: set<int>, free: seq<int>,
                    base: nat, window: Page)
    requires n <= |cs| && |p| == FRAMES && (forall d :: d in dirs ==> 0 < d < FRAMES) && d in dirs && d' in dirs
    requires base + n <= TABLES_PAGE && SameSlots(p, d, d', base, n)
    requires Backed(cs, n, p, dirs, d, tables, free, base, window)
    ensures Backed(cs, n, p, dirs, d', tables, free, base, window)
    ensures forall f :: BehindRange(p, d', base, n, f) <==> BehindRange(p, d, base, n, f)
  {
    hide EntryAt, Present, FrameOf, Pdi, Freeable, SameSlots, OwnFrame;
    forall q: Page | base <= q < base + n
      ensures EntryAt(p, d', q) == EntryAt(p, d, q) && OwnPage(p, dirs, d', tables, free, q, window)
    {
      SameSlotsEntry(p, d, d', base, n, q);
      if Present(EntryAt(p, d, q)) {
        ItsOwn(p, dirs, d, tables, free, base, n, window, q);
        OwnBySharing(p, dirs, d, d', q, window);
      }
    }
    EachOwn(p, dirs, d', tables, free, base, n, window);
  }

  /** In a space that misses the table of a used page the heap is not backed. */
  lemma SwitchFails(cs: Colors, n: nat, p: Phys, dirs: set<int>, d': int, tables: set<int>, free: seq<int>, base: nat,
                    window: Page, q: Page)
    requires n <= |cs| && |p| == FRAMES && (forall d :: d in dirs ==> 0 < d < FRAMES) && d' in dirs
    requires base + n <= TABLES_PAGE && UsedAt(cs, n, base, q) && !Present(p[d'][Pdi(q)])
    ensures !Backed(cs, n, p, dirs, d', tables, free, base, window)
  {
    hide EntryAt, Present, FrameOf, Pdi, Freeable;
    NoTable(p, d', q);
    assert cs[q - base] != FREE;
  }

  /** A frame that is a space's own is that of every space that shares the table. */
  lemma OwnBySharing(p: Phys, dirs: set<int>, d: int, d': int, q: Page, window: Page)
    requires |p| == FRAMES && (forall d :: d in dirs ==> 0 < d < FRAMES) && d in dirs && d' in dirs
    requires OwnFrame(p, dirs, d, q, window) && SharesTable(p, d', d, Pdi(q)) && EntryAt(p, d', q) == EntryAt(p, d, q)
    ensures OwnFrame(p, dirs, d', q, window)
  {
    hide EntryAt, Present, FrameOf, Pdi;
  }

  lemma InPagesOnly(page: nat, count: nat, q: Page)
    ensures q in Pages(page, count) <==> page <= q < page + count
  {
  }

  lemma NotInRange(page: nat, count: nat, base: nat, n: nat, window: Page, q: Page)
    requires RangesApart(page, count, base, n) && base <= q < base + n <= TABLES_PAGE && window < base
    ensures q !in Pages(page, count) + {window} && Pdi(q) < 1023
  {
    SlotOrder(q, q);
  }

  lemma KeptInSpace(p: Phys, p': Phys, dirs: set<int>, dd: int, pages: set<Page>, d: int, q: Page)
    requires |p| == |p'| == FRAMES && (forall d :: d in dirs ==> 0 < d < FRAMES) && d in dirs && dd in dirs
    requires OnlyPages(p, p', dirs, dd, pages) && q !in pages && Pdi(q) < 1023
    ensures EntryAt(p', d, q) == EntryAt(p, d, q)
  {
    hide EntryAt, Pdi, Shared, SharesTable, TablesKept;
  }

  /** Unmapping pages outside the heap. */
  lemma UnmapStep(p: Phys, p': Phys, dirs: set<int>, d: int, tables: set<int>, free: seq<int>, base: nat, n: nat,
                  window: Page, dd: int, page: nat, count: nat)
    requires |p| == |p'| == FRAMES && (forall d :: d in dirs ==> 0 < d < FRAMES) && d in dirs && dd in dirs
    requires base + n <= TABLES_PAGE && page + count <= TABLES_PAGE && window < base
    requires RangesApart(page, count, base, n) && TablesOf(p, dd) <= tables
    requires RangeWritten(p, p', dirs, dd, page, Zeroed(count))
    ensures CallStep(p, p', dirs, d, tables, free, tables, free, [], base, n, window)
  {
    hide EntryAt, Present, FrameOf, Pdi, OnlyPages, BehindRange, FramesTaken, SlotsStay, Pages, TablesOf;
    var changed := Pages(page, count);
    NotPresentZero();
    NoneTaken(free, tables);
    TablesStay(p, p', dirs, dd, changed);
    forall q: Page | base <= q < base + n ensures EntryAt(p', d, q) == EntryAt(p, d, q) {
      NotInRange(page, count, base, n, window, q);
      KeptInSpace(p, p', dirs, dd, changed, d, q);
    }
    forall d', q: Page | d' in dirs && Pdi(q) < 1023 && q != window && Present(EntryAt(p', d', q))
      ensures EntryAt(p', d', q) == EntryAt(p, d', q)
    {
      ChangedEntry(p, p', dirs, dd, changed, d', q);
      InPagesOnly(page, count, q);
      if q in changed { assert EntryAt(p', dd, page + (q - page)) == Zeroed(count)[q - page]; }
    }
  }

  /** A heap does not survive the unmapping of one of its used pages. */
  lemma UnmapBreaks(cs: Colors, n: nat, p: Phys, p': Phys, dirs: set<int>, d: int, tables: set<int>, free: seq<int>,
                    base: nat, window: Page, dd: int, page: nat, count: nat, q: Page)
    requires n <= |cs| && |p| == |p'| == FRAMES && (forall d :: d in dirs ==> 0 < d < FRAMES) && d in dirs && dd in dirs
    requires base + n <= TABLES_PAGE && page + count <= TABLES_PAGE
    requires RangeWritten(p, p', dirs, dd, page, Zeroed(count)) && page <= q < page + count
    requires UsedAt(cs, n, base, q) && Reaches(p, dd, d, q)
    ensures !Backed(cs, n, p', dirs, d, tables, free, base, window)
  {
    hide EntryAt, Present, FrameOf, Pdi, Freeable, RangeWritten, Reaches;
    NotPresentZero();
    SlotOrder(q, q);
    AfterWrite(p, p', dirs, dd, page, Zeroed(count), d, q);
    assert cs[q - base] != FREE;
  }

  lemma TablesKnownOf(p: Phys, dirs: set<int>, tables: set<int>, free: seq<int>, wi: Index, d: int)
    requires Layout(p, dirs, tables, free, wi) && d in dirs
    ensures 0 < d && TablesOf(p, d) <= tables
  {
    hide FrameOf, Present, Shared, TablesApart, FramesApart;
  }

  /** The frames of pages outside the heap are not behind it. */
  lemma OutsideNotBehind(p: Phys, dirs: set<int>, d: int, tables: set<int>, free: seq<int>, base: nat, n: nat,
                         window: Page, ds: int, r: Page)
    requires |p| == FRAMES && (forall d :: d in dirs ==> 0 < d < FRAMES) && d in dirs && ds in dirs
    requires base + n <= TABLES_PAGE && Freeable(p, dirs, d, tables, free, base, n, window)
    requires !(base <= r < base + n) && Pdi(r) < 1023 && r != window && Present(EntryAt(p, ds, r))
    ensures !BehindRange(p, d, base, n, FrameOf(EntryAt(p, ds, r)))
  {
    hide EntryAt, Present, FrameOf, Pdi, Freeable, SharesTable;
    forall q: Page | base <= q < base + n && Present(EntryAt(p, d, q))
      ensures FrameOf(EntryAt(p, d, q)) != FrameOf(EntryAt(p, ds, r))
    {
      ItsOwn(p, dirs, d, tables, free, base, n, window, q);
    }
  }

  /** Moving pages outside the heap to other places outside it. */
  lemma TransferStep(p: Phys, p': Phys, dirs: set<int>, d: int, tables: set<int>, free: seq<int>, tables': set<int>,
                     free': seq<int>, base: nat, n: nat, window: Page, ds: int, dd: int, src: nat, dst: nat, count: nat)
    requires |p| == |p'| == FRAMES && (forall d :: d in dirs ==> 0 < d < FRAMES) && d in dirs && ds in dirs
    requires dd in dirs && base + n <= TABLES_PAGE && window < base
    requires src + count <= TABLES_PAGE && dst + count <= TABLES_PAGE && window !in Pages(src, count)
    requires RangesApart(src, count, base, n) && RangesApart(dst, count, base, n)
    requires Freeable(p, dirs, d, tables, free, base, n, window)
    requires Transferred(p, p', dirs, ds, dd, src, dst, count, window) && SlotsStay(p, p', dirs)
    requires SameFrames(p, p', dirs + tables') && FramesTaken(free, tables, free', tables', [])
    ensures CallStep(p, p', dirs, d, tables, free, tables', free', [], base, n, window)
  {
    hide EntryAt, Present, FrameOf, Pdi, BehindRange, SameFrames, FramesTaken, SlotsStay, Freeable, Pages, Reaches;
    NotPresentZero();
    forall q: Page | base <= q < base + n ensures EntryAt(p', d, q) == EntryAt(p, d, q) {
      NotInRange(src, count, base, n, window, q);
      assert q != window;
      assert EntryAt(p', d, q) == TransferredEntry(p, ds, dd, src, dst, count, d, q);
    }
    forall d', q: Page | d' in dirs && Pdi(q) < 1023 && q != window && Present(EntryAt(p', d', q))
      ensures EntryAt(p', d', q) == EntryAt(p, d', q) || !BehindRange(p, d, base, n, FrameOf(EntryAt(p', d', q)))
    {
      assert EntryAt(p', d', q) == TransferredEntry(p, ds, dd, src, dst, count, d', q);
      if dst <= q < dst + count && EntryAt(p', d', q) != EntryAt(p, d', q) {
        var r: Page := q - dst + src;
        InPagesOnly(src, count, r);
        SlotOrder(r, r);
        OutsideNotBehind(p, dirs, d, tables, free, base, n, window, ds, r);
      }
    }
  }

  lemma NothingStep(p: Phys, dirs: set<int>, d: int, tables: set<int>, free: seq<int>, base: nat, n: nat, window: Page)
    requires |p| == FRAMES && (forall d :: d in dirs ==> 0 < d < FRAMES) && d in dirs && base + n <= TABLES_PAGE
    ensures CallStep(p, p, dirs, d, tables, free, tables, free, [], base, n, window)
  {
    hide EntryAt, Present, FrameOf, Pdi, BehindRange, FramesTaken;
    NoneTaken(free, tables);
  }
}
