/** New page directories (`new_page_dir`, src/memory/mem.c:538-561): a heap page is filled as a
    directory and then handed over as a frame. */
module NewSpaces {
  import opened Words
  import opened Entries
  import opened PageTables
  import opened Paging
  import opened HeapRuns
  import opened PageRanges
  import opened BackedHeap
  import opened FrameFlow
  import opened CopyPages

  /** A directory in frame `f`: the first slot and those from 3 GiB up are those of `dir`, but for the
      last one, which is the self-map. */
  ghost function NewDirectory(dir: Frame, f: int): Frame
    requires 0 < f < FRAMES
  {
    seq(TABLE_SIZE, i requires 0 <= i < TABLE_SIZE => NewSlot(dir, f, i))
  }

  ghost function NewSlot(dir: Frame, f: int, i: Index): u32
    requires 0 < f < FRAMES
  {
    if i == 1023 then 4096 * f + 3 else if i == 0 || i >= 768 then dir[i] else 0
  }

  /** One word of the new directory is written through its heap page. */
  method StoreWord(m: Memory, page: Page, j: Index, v: u32, ghost p: Phys, ghost x: Frame) returns (ghost x': Frame)
    requires |p| == FRAMES && 0 < m.Dir() && m.Dir() in m.dirs && page < TABLES_PAGE
    requires Layout(p, m.dirs, m.tables, m.free, Pdi(m.window)) && FreeChain(p, m.free, m.freeFramePaddr)
    requires (forall d :: d in m.dirs ==> 0 < d < FRAMES) && FreeUnmapped(p, m.dirs, m.window, m.free)
    requires Present(EntryAt(p, m.Dir(), page)) && m.Foreign(FrameOf(EntryAt(p, m.Dir(), page)))
    requires m.Ram() == p[FrameOf(EntryAt(p, m.Dir(), page)) := x]
    modifies m.phys
    ensures x' == x[j := v] && m.Ram() == p[FrameOf(EntryAt(p, m.Dir(), page)) := x']
  {
    hide FrameOf, Pdi, Pti, Present, EntryAt, Layout, FreeChain, Shared, FreeUnmapped;
    DataWord(p, m.dirs, m.tables, m.free, Pdi(m.window), m.freeFramePaddr, m.Dir(), FrameOf(EntryAt(p, m.Dir(), page)),
      x, page, m.window);
    m.Store(page, j, v);
    x' := x[j := v];
  }

  /** A directory entry is read while the new directory is being written. */
  method LoadSlot(m: Memory, i: Index, ghost p: Phys, ghost f: int, ghost x: Frame) returns (v: u32)
    requires |p| == FRAMES && 0 < m.Dir() && m.Dir() in m.dirs && 0 < f < FRAMES && f !in m.dirs
    requires SelfMapped(p, m.Dir())
    requires m.Ram() == p[f := x]
    ensures v == p[m.Dir()][i]
  {
    v := m.ReadPde(i);
  }

  /** The loops and assignments that fill the page of a new directory. */
  method FillDirectory(m: Memory, page: Page)
    requires m.Valid() && page < TABLES_PAGE && Present(EntryAt(m.Ram(), m.Dir(), page))
    requires m.Foreign(FrameOf(EntryAt(m.Ram(), m.Dir(), page)))
    modifies m.phys
    ensures m.Valid()
    ensures var p, d := old(m.Ram()), m.Dir(); var f := FrameOf(EntryAt(p, d, page));
      0 < f && m.Ram() == p[f := NewDirectory(p[d], f)] && EntryAt(m.Ram(), d, page) == EntryAt(p, d, page)
  {
    hide FrameOf, Pdi, Pti, Present, EntryAt, Layout, FreeChain, Address, CreateEntry, FreeUnmapped;
    ghost var p, d := m.Ram(), m.Dir();
    ghost var f := FrameOf(EntryAt(p, d, page));
    ghost var x := p[f];
    m.Inside();
    assert p == p[f := x];
    var i := 1;
    while i < 768
      invariant 1 <= i <= 768 && |x| == TABLE_SIZE && m.Ram() == p[f := x]
      invariant forall k :: 1 <= k < i ==> x[k] == 0
    {
      x := StoreWord(m, page, i, 0, p, x);
      i := i + 1;
    }
    i := 768;
    while i < 1023
      invariant 768 <= i <= 1023 && |x| == TABLE_SIZE && m.Ram() == p[f := x]
      invariant forall k :: 1 <= k < 768 ==> x[k] == 0
      invariant forall k :: 768 <= k < i ==> x[k] == p[d][k]
    {
      var pde := LoadSlot(m, i, p, f, x);
      x := StoreWord(m, page, i, pde, p, x);
      i := i + 1;
    }
    var low := LoadSlot(m, 0, p, f, x);
    x := StoreWord(m, page, 0, low, p, x);
    DataWord(p, m.dirs, m.tables, m.free, Pdi(m.window), m.freeFramePaddr, d, f, x, page, m.window);
    var entry := m.GetEntry(page);
    x := StoreWord(m, page, 1023, CreateEntry(Address(FrameOf(entry)), WRITABLE), p, x);
    SelfMapWord(f);
    assert x == NewDirectory(p[d], f);
    DataWord(p, m.dirs, m.tables, m.free, Pdi(m.window), m.freeFramePaddr, d, f, x, page, m.window);
  }

  lemma SelfMapWord(f: int)
    requires 0 <= f < FRAMES
    ensures CreateEntry(Address(f), WRITABLE) == 4096 * f + 3
  {
    EntryNumber(Address(f), WRITABLE);
    LowPart(f, 0);
  }

  /** What is in a new space: the self-map, and of the space `d` the pages below 4 MiB and those from
      3 GiB up to the self-map, and nothing else. */
  ghost predicate NewSpace(p: Phys, d: int, f: int)
    requires |p| == FRAMES && 0 < d < FRAMES && 0 < f < FRAMES
  {
    && p[f][1023] == 4096 * f + 3
    && forall q: Page :: q < 0xF_FC00 ==>
         EntryAt(p, f, q) == if q < 1024 || 0xC_0000 <= q then EntryAt(p, d, q) else 0
  }

  /** The same in terms of directory slots. */
  lemma NewSpaceSlots(p: Phys, d: int, f: int)
    requires |p| == FRAMES && 0 < d < FRAMES && 0 < f < FRAMES && NewSpace(p, d, f)
    ensures forall q: Page :: Pdi(q) < 1023 ==> EntryAt(p, f, q) == if Shared(Pdi(q)) then EntryAt(p, d, q) else 0
  {
    hide EntryAt;
  }

  lemma NewDirectorySlots(p: Phys, d: int, f: int)
    requires |p| == FRAMES && 0 < d < FRAMES && 0 < f < FRAMES && p[f] == NewDirectory(p[d], f)
    ensures SelfMapped(p, f) && p[f][1023] == 4096 * f + 3 && WritableBit(p[f][1023])
    ensures forall i: Index :: i < 1023 ==> p[f][i] == if Shared(i) then p[d][i] else 0
  {
    LowBits(f, 3);
  }

  /** A frame that holds a new directory joins the directories. */
  lemma JoinDirectories(p: Phys, dirs: set<int>, tables: set<int>, free: seq<int>, wi: Index, d: int, f: int)
    requires Layout(p, dirs, tables, free, wi) && d in dirs && Shared(wi)
    requires 0 < f < FRAMES && f !in dirs && f !in tables && f !in free && p[f] == NewDirectory(p[d], f)
    ensures 0 < d && Layout(p, dirs + {f}, tables, free, wi) && NewSpace(p, d, f) && SameShared(p, d, f)
  {
    hide FrameOf, Present, WritableBit, NewDirectory, TablesApart, TablesKnown, NewSpace, SelfMapped;
    NotPresentZero();
    NewDirectorySlots(p, d, f);
    JoinTables(p, dirs, tables, d, f);
    JoinPages(p, d, f);
    assert p[f][0] == p[d][0] && p[f][wi] == p[d][wi];
  }

  lemma JoinTables(p: Phys, dirs: set<int>, tables: set<int>, d: int, f: int)
    requires |p| == FRAMES && (forall d :: d in dirs ==> 0 < d < FRAMES) && d in dirs && 0 < f < FRAMES && f !in dirs
    requires TablesKnown(p, dirs, tables) && TablesApart(p, dirs)
    requires forall i: Index :: i < 1023 ==> p[f][i] == if Shared(i) then p[d][i] else 0
    ensures TablesKnown(p, dirs + {f}, tables) && TablesApart(p, dirs + {f})
  {
    hide FrameOf, Present, Shared;
    NotPresentZero();
    forall d1, d2, i1: Index, i2: Index | d1 in dirs + {f} && d2 in dirs + {f} && i1 < 1023 && i2 < 1023
        && Present(p[d1][i1]) && Present(p[d2][i2]) && FrameOf(p[d1][i1]) == FrameOf(p[d2][i2])
      ensures i1 == i2 && (d1 == d2 || Shared(i1))
    {
      var e1, e2 := if d1 == f then d else d1, if d2 == f then d else d2;
      assert p[e1][i1] == p[d1][i1] && p[e2][i2] == p[d2][i2];
    }
  }

  lemma JoinPages(p: Phys, d: int, f: int)
    requires |p| == FRAMES && 0 < d < FRAMES && 0 < f < FRAMES
    requires forall i: Index :: i < 1023 ==> p[f][i] == if Shared(i) then p[d][i] else 0
    requires p[f][1023] == 4096 * f + 3
    ensures NewSpace(p, d, f)
  {
    hide FrameOf, Present, Pti;
    NotPresentZero();
  }

  /** The new space has the same tables for the pages below 4 MiB and from 3 GiB up to the self-map. */
  ghost predicate SameShared(p: Phys, d: int, f: int)
    requires |p| == FRAMES && 0 < d < FRAMES && 0 < f < FRAMES
  {
    forall i: Index :: i == 0 || 768 <= i < 1023 ==> p[f][i] == p[d][i]
  }

  /** No free frame is mapped in the new space, as none is in the current one. */
  lemma JoinKeepsUnmapped(p: Phys, dirs: set<int>, d: int, f: int, free: seq<int>, window: Page)
    requires |p| == FRAMES && (forall d :: d in dirs ==> 0 < d < FRAMES) && d in dirs && 0 < f < FRAMES
    requires FreeUnmapped(p, dirs, window, free) && NewSpace(p, d, f)
    ensures FreeUnmapped(p, dirs + {f}, window, free)
  {
    hide EntryAt, Pdi, Present, FrameOf, Shared, NewSpace;
    NotPresentZero();
    NewSpaceSlots(p, d, f);
  }

  /** The new space has no frame of the heap but where it shares the heap's tables. */
  lemma JoinKeepsOwn(p: Phys, dirs: set<int>, d: int, f: int, q: Page, window: Page)
    requires |p| == FRAMES && (forall d :: d in dirs ==> 0 < d < FRAMES) && d in dirs && 0 < f < FRAMES && Pdi(q) < 1023
    requires OwnFrame(p, dirs, d, q, window) && NewSpace(p, d, f) && SameShared(p, d, f) && Present(EntryAt(p, d, q))
    ensures OwnFrame(p, dirs + {f}, d, q, window)
  {
    hide EntryAt, Pdi, Present, FrameOf, Shared, SharesTable, NewSpace, SameShared;
    NotPresentZero();
    NewSpaceSlots(p, d, f);
    if Shared(Pdi(q)) { JoinShares(p, d, f, q); }
  }

  lemma JoinShares(p: Phys, d: int, f: int, q: Page)
    requires |p| == FRAMES && 0 < d < FRAMES && 0 < f < FRAMES && SameShared(p, d, f)
    requires Pdi(q) < 1023 && Shared(Pdi(q)) && Present(EntryAt(p, d, q))
    ensures SharesTable(p, d, f, Pdi(q))
  {
    hide FrameOf, Pdi, Pti;
    if !Present(p[d][Pdi(q)]) { NoTable(p, d, q); }
  }

  lemma JoinKeepsBacked(cs: Colors, n: nat, p: Phys, dirs: set<int>, d: int, tables: set<int>, free: seq<int>,
                        base: nat, window: Page, f: int)
    requires n <= |cs| && |p| == FRAMES && (forall d :: d in dirs ==> 0 < d < FRAMES) && d in dirs
    requires base + n <= TABLES_PAGE
    requires Backed(cs, n, p, dirs, d, tables, free, base, window) && 0 < f < FRAMES && NewSpace(p, d, f)
    requires SameShared(p, d, f)
    requires forall q: Page :: base <= q < base + n && Present(EntryAt(p, d, q)) ==> FrameOf(EntryAt(p, d, q)) != f
    ensures Backed(cs, n, p, dirs + {f}, d, tables, free, base, window)
  {
    hide EntryAt, Present, FrameOf, Pdi, OwnFrame, UsedPresent, NewSpace, SameShared, Freeable;
    forall q: Page | base <= q < base + n ensures OwnPage(p, dirs + {f}, d, tables, free, q, window) {
      SlotOrder(q, q);
      if Present(EntryAt(p, d, q)) {
        ItsOwn(p, dirs, d, tables, free, base, n, window, q);
        JoinKeepsOwn(p, dirs, d, f, q, window);
      }
    }
    EachOwn(p, dirs + {f}, d, tables, free, base, n, window);
  }

  /** A heap page is given up: its frame leaves the heap. */
  lemma DetachKeepsBacked(cs: Colors, cs': Colors, n: nat, p: Phys, p': Phys, dirs: set<int>, d: int, tables: set<int>,
                          free: seq<int>, base: nat, window: Page, s: nat)
    requires n <= |cs| && n <= |cs'| && |p| == |p'| == FRAMES && (forall d :: d in dirs ==> 0 < d < FRAMES) && d in dirs
    requires base + n <= TABLES_PAGE && window !in Pages(base, n)
    requires s < n && Backed(cs, n, p, dirs, d, tables, free, base, window) && cs[s] != FREE
    requires OnlyPages(p, p', dirs, d, {base + s}) && EntryAt(p', d, base + s) == 0
    requires forall i :: 0 <= i < n ==> (cs'[i] != FREE <==> cs[i] != FREE && i != s)
    ensures Backed(cs', n, p', dirs, d, tables, free, base, window) && StraySame(cs, cs', n, p, p', d, base)
    ensures forall q: Page :: base <= q < base + n && Present(EntryAt(p', d, q)) ==>
              FrameOf(EntryAt(p', d, q)) != FrameOf(EntryAt(p, d, base + s))
  {
    hide EntryAt, Present, FrameOf, Pdi, OnlyPages, Freeable, OwnPage, Pages;
    NotPresentZero();
    var q0: Page := base + s;
    assert cs[q0 - base] != FREE;
    forall q: Page | base <= q < base + n
      ensures EntryAt(p', d, q) == if q == q0 then 0 else EntryAt(p, d, q)
      ensures Present(EntryAt(p', d, q)) ==> FrameOf(EntryAt(p', d, q)) != FrameOf(EntryAt(p, d, q0))
      ensures OwnPage(p', dirs, d, tables, free, q, window)
    {
      if q == q0 {
        UnmappedOwn(p', dirs, d, tables, free, q, window);
      } else {
        OthersOwn(p, p', dirs, d, tables, free, base, n, window, q0, q);
      }
    }
    EachOwn(p', dirs, d, tables, free, base, n, window);
  }

  lemma OthersOwn(p: Phys, p': Phys, dirs: set<int>, d: int, tables: set<int>, free: seq<int>, base: nat, n: nat,
                  window: Page, q0: Page, q: Page)
    requires |p| == |p'| == FRAMES && (forall d :: d in dirs ==> 0 < d < FRAMES) && d in dirs && base + n <= TABLES_PAGE
    requires Freeable(p, dirs, d, tables, free, base, n, window) && window !in Pages(base, n)
    requires base <= q < base + n && base <= q0 < base + n && q != q0 && Present(EntryAt(p, d, q0))
    requires OnlyPages(p, p', dirs, d, {q0}) && EntryAt(p', d, q0) == 0
    ensures EntryAt(p', d, q) == EntryAt(p, d, q) && OwnPage(p', dirs, d, tables, free, q, window)
    ensures Present(EntryAt(p, d, q)) ==> FrameOf(EntryAt(p, d, q)) != FrameOf(EntryAt(p, d, q0))
  {
    hide EntryAt, Present, FrameOf, Pdi, OnlyPages, Freeable, OwnFrame, Pages;
    NotPresentZero();
    KeptPage(p, p', dirs, d, {q0}, q);
    SlotOrder(q, q);
    if Present(EntryAt(p, d, q)) {
      ItsOwn(p, dirs, d, tables, free, base, n, window, q);
      FramesDiffer(p, dirs, d, tables, free, base, n, window, q, q0);
      OwnKept(p, p', dirs, d, {q0}, q, window);
    }
  }

  /** The frame behind a used heap page is used by nothing else. */
  lemma UsedFrame(cs: Colors, n: nat, p: Phys, dirs: set<int>, d: int, tables: set<int>, free: seq<int>, base: nat,
                  window: Page, s: nat)
    requires n <= |cs| && |p| == FRAMES && (forall d :: d in dirs ==> 0 < d < FRAMES) && d in dirs
    requires base + n <= TABLES_PAGE && s < n
    requires Backed(cs, n, p, dirs, d, tables, free, base, window) && window !in Pages(base, n) && cs[s] != FREE
    ensures Present(EntryAt(p, d, base + s))
    ensures var f := FrameOf(EntryAt(p, d, base + s)); 0 < f && f !in dirs && f !in tables && f !in free
    ensures forall q: Page :: base <= q < base + n && Present(EntryAt(p, d, q)) && q != base + s ==>
              FrameOf(EntryAt(p, d, q)) != FrameOf(EntryAt(p, d, base + s))
  {
    hide EntryAt, Present, FrameOf, Freeable, OwnFrame, Pages;
    var q0: Page := base + s;
    assert cs[q0 - base] != FREE;
    ItsOwn(p, dirs, d, tables, free, base, n, window, q0);
    forall q: Page | base <= q < base + n && Present(EntryAt(p, d, q)) && q != q0
      ensures FrameOf(EntryAt(p, d, q)) != FrameOf(EntryAt(p, d, q0))
    {
      FramesDiffer(p, dirs, d, tables, free, base, n, window, q, q0);
    }
  }

  /** The heap page of a new directory is filled and then unmapped. */
  lemma DirectoryDetached(cs: Colors, cs': Colors, n: nat, p1: Phys, p2: Phys, p3: Phys, dirs: set<int>, d: int,
                          tables: set<int>, free: seq<int>, window: Page, head: u32, base: nat, s: nat)
    requires n <= |cs| && n <= |cs'| && |p1| == |p2| == |p3| == FRAMES && (forall d :: d in dirs ==> 0 < d < FRAMES)
    requires d in dirs
    requires base + n <= TABLES_PAGE && s < n && cs[s] != FREE && Backed(cs, n, p1, dirs, d, tables, free, base, window)
    requires window !in Pages(base, n) && Shared(Pdi(window)) && Layout(p3, dirs, tables, free, Pdi(window))
    requires Layout(p1, dirs, tables, free, Pdi(window)) && FreeChain(p1, free, head)
    requires var f := FrameOf(EntryAt(p1, d, base + s)); 0 < f && p2 == p1[f := NewDirectory(p1[d], f)]
    requires OnlyPages(p2, p3, dirs, d, {base + s}) && EntryAt(p3, d, base + s) == 0
    requires SameDirectories(p2, p3, dirs) && SameFrames(p2, p3, tables)
    requires forall i :: 0 <= i < n ==> (cs'[i] != FREE <==> cs[i] != FREE && i != s)
    ensures var f := FrameOf(EntryAt(p1, d, base + s));
      && EntryAt(p2, d, base + s) == EntryAt(p1, d, base + s)
      && p3[f] == NewDirectory(p3[d], f) && f !in dirs && f !in tables && f !in free
      && 0 < f && Backed(cs', n, p3, dirs + {f}, d, tables, free, base, window)
    ensures StraySame(cs, cs', n, p1, p3, d, base)
    ensures OthersSame(n, p1, p3, d, base, s, s + 1)
    ensures ElsewhereSame(cs, n, p1, p3, dirs, d, tables, free, base, window)
    ensures FramesFlow(n, p1, p3, d, base, tables, free, tables, free, {FrameOf(EntryAt(p1, d, base + s))})
  {
    hide EntryAt, Present, FrameOf, Pdi, OnlyPages, NewDirectory, Layout, FreeChain, SameEntries, UsedPresent, Freeable,
      ElsewhereSame, NewSpace, SameShared, Pages, Shared, FramesFlow;
    UsedFrame(cs, n, p1, dirs, d, tables, free, base, window, s);
    var f := FrameOf(EntryAt(p1, d, base + s));
    DataFrame(p1, dirs, tables, free, Pdi(window), head, f, NewDirectory(p1[d], f));
    DetachElsewhere(cs, n, p1, p2, p3, dirs, d, tables, free, base, s, f, NewDirectory(p1[d], f), window);
    forall q: Page | base <= q < base + n ensures EntryAt(p2, d, q) == EntryAt(p1, d, q) {
      EntryKept(p1, p2, dirs, d, q);
    }
    DetachFlow(p1, p2, p3, dirs, d, tables, free, base, n, s);
    SameBacked(cs, n, p1, p2, dirs, d, tables, free, base, window);
    DetachKeepsBacked(cs, cs', n, p2, p3, dirs, d, tables, free, base, window, s);
    JoinDirectories(p3, dirs, tables, free, Pdi(window), d, f);
    JoinKeepsBacked(cs', n, p3, dirs, d, tables, free, base, window, f);
    forall q: Page | base <= q < base + n && Present(EntryAt(p1, d, q)) && !(base + s <= q < base + (s + 1))
      ensures SamePage(p1, p3, d, q)
    {
      KeptPage(p2, p3, dirs, d, {base + s}, q);
      KeptFrame(p1, dirs, d, tables, free, base, n, window, q);
    }
  }

  lemma SameBacked(cs: Colors, n: nat, p: Phys, p': Phys, dirs: set<int>, d: int, tables: set<int>, free: seq<int>,
                   base: nat, window: Page)
    requires n <= |cs| && |p| == |p'| == FRAMES && (forall d :: d in dirs ==> 0 < d < FRAMES) && d in dirs
    requires base + n <= TABLES_PAGE
    requires Backed(cs, n, p, dirs, d, tables, free, base, window) && window !in Pages(base, n)
    requires SameDirectories(p, p', dirs) && SameEntries(p, p', dirs, {})
    ensures Backed(cs, n, p', dirs, d, tables, free, base, window)
  {
    hide EntryAt, Present, FrameOf, OwnFrame, SameEntries, SameDirectories, Freeable, Pdi;
    forall q: Page | base <= q < base + n
      ensures EntryAt(p', d, q) == EntryAt(p, d, q) && OwnPage(p', dirs, d, tables, free, q, window)
    {
      EntryKept(p, p', dirs, d, q);
      FewerExceptions(p, p', dirs, {window});
      SlotOrder(q, q);
      assert q in Pages(base, n);
      if Present(EntryAt(p, d, q)) {
        ItsOwn(p, dirs, d, tables, free, base, n, window, q);
        OwnSame(p, p', dirs, d, q, window);
      }
    }
    EachOwn(p', dirs, d, tables, free, base, n, window);
  }

  lemma KeptFrame(p: Phys, dirs: set<int>, d: int, tables: set<int>, free: seq<int>, base: nat, n: nat, window: Page,
                  q: Page)
    requires |p| == FRAMES && (forall d :: d in dirs ==> 0 < d < FRAMES) && 0 < d < FRAMES && base + n <= TABLES_PAGE
    requires base <= q < base + n && Freeable(p, dirs, d, tables, free, base, n, window) && Present(EntryAt(p, d, q))
    ensures FrameOf(EntryAt(p, d, q)) !in tables
  {
    hide EntryAt, Present, FrameOf, OwnFrame, Freeable;
    ItsOwn(p, dirs, d, tables, free, base, n, window, q);
  }

  /** Heap pages that two steps leave alone are left alone by both. */
  lemma OthersAlong(n: nat, p: Phys, p1: Phys, p2: Phys, d: int, base: nat, s: nat)
    requires |p| == |p1| == |p2| == FRAMES && 0 < d < FRAMES && base + n <= TABLES_PAGE && s < n
    requires !Present(EntryAt(p, d, base + s))
    requires OthersSame(n, p, p1, d, base, s, s) && OthersSame(n, p1, p2, d, base, s, s + 1)
    ensures OthersSame(n, p, p2, d, base, 0, 0)
  {
    hide EntryAt, Present, FrameOf;
    forall q: Page | base <= q < base + n && Present(EntryAt(p, d, q)) ensures SamePage(p, p2, d, q) {
      assert SamePage(p, p1, d, q) && q != base + s;
      assert SamePage(p1, p2, d, q);
    }
  }

  /** Filling and giving up the page of a directory changes nothing outside the heap. */
  lemma DetachElsewhere(cs: Colors, n: nat, p1: Phys, p2: Phys, p3: Phys, dirs: set<int>, d: int, tables: set<int>,
                        free: seq<int>, base: nat, s: nat, f: int, x: Frame, window: Page)
    requires n <= |cs| && |p1| == |p2| == |p3| == FRAMES && (forall d :: d in dirs ==> 0 < d < FRAMES) && d in dirs
    requires base + n <= TABLES_PAGE
    requires s < n && cs[s] != FREE && f == FrameOf(EntryAt(p1, d, base + s)) && 0 < f && p2 == p1[f := x]
    requires SameDirectories(p1, p2, dirs) && SameEntries(p1, p2, dirs, {})
    requires OnlyPages(p2, p3, dirs, d, {base + s}) && SameFrames(p2, p3, tables)
    ensures ElsewhereSame(cs, n, p1, p3, dirs, d, tables, free, base, window)
  {
    hide EntryAt, Pdi, Shared, FrameOf, Pages;
    var q: Page := base + s;
    assert cs[q - base] != FREE;
    assert BehindHeap(cs, n, p1, d, base, f);
    InPages(base, n, q);
  }

  lemma InPages(base: nat, n: nat, q: Page)
    ensures base <= q < base + n ==> q in Pages(base, n)
  {
  }
}
