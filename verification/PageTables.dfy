/** Two-level page tables in physical memory, as values: what an address space maps, and the
    layout that keeps directories, tables and free frames apart. */
module PageTables {
  import opened Words
  import opened Entries

  type Frame = s: seq<u32> | |s| == TABLE_SIZE witness seq(TABLE_SIZE, _ => 0)
  type Phys = seq<Frame>

  function Zeros(): Frame {
    seq(TABLE_SIZE, _ => 0)
  }

  /** One word of physical memory is written. */
  function Poke(p: Phys, f: int, j: Index, v: u32): (p': Phys)
    requires 0 <= f < |p|
    ensures |p'| == |p| && |p[f][j := v]| == TABLE_SIZE
  {
    p[f := p[f][j := v]]
  }

  lemma PokeWords(p: Phys, f: int, j: Index, v: u32)
    requires 0 <= f < |p|
    ensures forall g :: 0 <= g < |p| && g != f ==> Poke(p, f, j, v)[g] == p[g]
    ensures forall k :: 0 <= k < TABLE_SIZE ==> Poke(p, f, j, v)[f][k] == if k == j then v else p[f][k]
  {
  }

  /** The page-table entry of a page in the address space of directory `d`, 0 if there is no table. */
  function EntryAt(p: Phys, d: int, page: Page): u32
    requires |p| == FRAMES && 0 <= d < FRAMES
  {
    var pde := p[d][Pdi(page)];
    if Present(pde) then p[FrameOf(pde)][Pti(page)] else 0
  }

  /** Directory slots whose tables are shared by all address spaces: the lower memory map and
      everything from 3 GiB up to the self-map. */
  predicate Shared(i: Index) {
    i == 0 || 768 <= i < 1023
  }

  ghost predicate AllInRange(free: seq<int>) {
    forall k :: 0 <= k < |free| ==> 0 < free[k] < FRAMES
  }

  /** Directories map themselves in their last slot and the lower memory map in their first, and all
      their entries are writable; tables are not directories and belong to one slot; free frames are
      neither. All spaces have the same table in slot `wi`. */
  ghost predicate Layout(p: Phys, dirs: set<int>, tables: set<int>, free: seq<int>, wi: Index) {
    && |p| == FRAMES && wi < 1023
    && (forall d :: d in dirs ==> 0 < d < FRAMES && SelfMapped(p, d) && Present(p[d][0]) && Present(p[d][wi]))
    && TablesKnown(p, dirs, tables) && TablesApart(p, dirs) && TablesWritable(p, dirs)
    && (forall d, d' :: d in dirs && d' in dirs ==> FrameOf(p[d][wi]) == FrameOf(p[d'][wi]))
    && FramesApart(dirs, tables, free)
  }

  /** The tables of all directory slots but the last are in `tables`. */
  ghost predicate TablesKnown(p: Phys, dirs: set<int>, tables: set<int>)
    requires |p| == FRAMES && forall d :: d in dirs ==> 0 < d < FRAMES
  {
    forall d, i: Index :: d in dirs && i < 1023 && Present(p[d][i]) ==> FrameOf(p[d][i]) in tables
  }

  /** What may be written is decided by the entries of pages. */
  ghost predicate TablesWritable(p: Phys, dirs: set<int>)
    requires |p| == FRAMES && forall d :: d in dirs ==> 0 < d < FRAMES
  {
    forall d, i: Index :: d in dirs && Present(p[d][i]) ==> WritableBit(p[d][i])
  }

  /** Two slots have the same table only if they are the same slot, of one space or shared. */
  ghost predicate TablesApart(p: Phys, dirs: set<int>)
    requires |p| == FRAMES && forall d :: d in dirs ==> 0 < d < FRAMES
  {
    forall d, d', i: Index, i': Index {:trigger p[d][i], p[d'][i']} ::
      d in dirs && d' in dirs && i < 1023 && i' < 1023 && Present(p[d][i]) && Present(p[d'][i'])
      ==> FrameOf(p[d][i]) == FrameOf(p[d'][i']) ==> i == i' && (d == d' || Shared(i))
  }

  ghost predicate FramesApart(dirs: set<int>, tables: set<int>, free: seq<int>) {
    && (forall t :: t in tables ==> 0 < t < FRAMES && t !in dirs)
    && AllInRange(free)
    && (forall k :: 0 <= k < |free| ==> free[k] !in dirs && free[k] !in tables)
    && NoDuplicates(free)
  }

  ghost predicate SameDirectories(p: Phys, p': Phys, dirs: set<int>)
    requires |p| == |p'| == FRAMES && forall d :: d in dirs ==> 0 < d < FRAMES
  {
    forall d :: d in dirs ==> p'[d] == p[d]
  }

  /** The layout depends on the directories only. */
  lemma LayoutFrame(p: Phys, p': Phys, dirs: set<int>, tables: set<int>, free: seq<int>, wi: Index)
    requires Layout(p, dirs, tables, free, wi) && |p'| == FRAMES && SameDirectories(p, p', dirs)
    ensures Layout(p', dirs, tables, free, wi)
  {
    hide FrameOf, Present, Shared;
    forall d, d', i: Index,
      i': Index | d in dirs && d' in dirs && i < 1023 && i' < 1023 && Present(p'[d][i]) && Present(p'[d'][i'])
        && FrameOf(p'[d][i]) == FrameOf(p'[d'][i'])
      ensures i == i' && (d == d' || Shared(i))
    {
      assert p'[d][i] == p[d][i] && p'[d'][i'] == p[d'][i'];
    }
  }

  predicate SelfMapped(p: Phys, d: int)
    requires |p| == FRAMES && 0 < d < FRAMES
  {
    Present(p[d][1023]) && FrameOf(p[d][1023]) == d
  }

  predicate NoDuplicates(s: seq<int>) {
    forall i, j :: 0 <= i < j < |s| ==> s[i] != s[j]
  }

  /** The list of free frames, linked through their first words. */
  ghost predicate FreeChain(p: Phys, free: seq<int>, head: u32)
    requires |p| == FRAMES && AllInRange(free)
  {
    && head == ChainLink(free, 0)
    && forall k :: 0 <= k < |free| ==> p[free[k]][0] == ChainLink(free, k + 1)
  }

  ghost function ChainLink(free: seq<int>, k: nat): u32
    requires AllInRange(free)
  {
    if k < |free| then Address(free[k]) else 0
  }

  /** Two spaces have the same table in a slot. */
  predicate SharesTable(p: Phys, d: int, d': int, i: Index)
    requires |p| == FRAMES && 0 <= d < FRAMES && 0 <= d' < FRAMES
  {
    Present(p[d][i]) && Present(p[d'][i]) && FrameOf(p[d][i]) == FrameOf(p[d'][i])
  }

  // ---------- frames in use ----------

  /** No page of any space is mapped to the frame; the window, which maps the first free frame, and
      the self-map do not count. */
  ghost predicate MappedNowhere(p: Phys, dirs: set<int>, window: Page, f: int)
    requires |p| == FRAMES && forall d :: d in dirs ==> 0 < d < FRAMES
  {
    forall d, q: Page :: d in dirs && Pdi(q) < 1023 && q != window && Present(EntryAt(p, d, q))
      ==> FrameOf(EntryAt(p, d, q)) != f
  }

  /** No free frame is in use behind a mapped page. */
  ghost predicate FreeUnmapped(p: Phys, dirs: set<int>, window: Page, free: seq<int>)
    requires |p| == FRAMES && forall d :: d in dirs ==> 0 < d < FRAMES
  {
    forall d, q: Page :: d in dirs && Pdi(q) < 1023 && q != window && Present(EntryAt(p, d, q))
      ==> FrameOf(EntryAt(p, d, q)) !in free
  }

  /** The frame behind page `q` of space `d` is behind no other page: other spaces map it there only,
      and only where they share the table. */
  ghost predicate OwnFrame(p: Phys, dirs: set<int>, d: int, q: Page, window: Page)
    requires |p| == FRAMES && (forall d :: d in dirs ==> 0 < d < FRAMES) && 0 < d < FRAMES
  {
    forall d', r: Page :: d' in dirs && Pdi(r) < 1023 && r != window && Present(EntryAt(p, d', r))
        && FrameOf(EntryAt(p, d', r)) == FrameOf(EntryAt(p, d, q))
      ==> r == q && (d' == d || SharesTable(p, d, d', Pdi(q)))
  }

  /** Spaces that share a table have the same entries there. */
  lemma SharedEntry(p: Phys, d: int, d': int, q: Page)
    requires |p| == FRAMES && 0 <= d < FRAMES && 0 <= d' < FRAMES && SharesTable(p, d, d', Pdi(q))
    ensures EntryAt(p, d', q) == EntryAt(p, d, q)
  {
    hide FrameOf, Present, Pdi, Pti;
  }

  lemma SharesKept(p: Phys, p': Phys, dirs: set<int>, d: int, d': int, i: Index)
    requires |p| == |p'| == FRAMES && (forall d :: d in dirs ==> 0 < d < FRAMES) && d in dirs && d' in dirs && i < 1023
    requires TablesKept(p, p', dirs, d) && SharesTable(p, d, d', i)
    ensures SharesTable(p', d, d', i)
  {
    hide FrameOf, Present;
  }

  /** An entry that an operation on space `d` changed is the entry that `d` has now. */
  lemma ChangedEntry(p: Phys, p': Phys, dirs: set<int>, d: int, pages: set<Page>, d': int, q: Page)
    requires |p| == |p'| == FRAMES && (forall d :: d in dirs ==> 0 < d < FRAMES) && d in dirs && d' in dirs
    requires OnlyPages(p, p', dirs, d, pages) && Pdi(q) < 1023
    ensures EntryAt(p', d', q) == EntryAt(p, d', q)
         || (q in pages && EntryAt(p', d', q) == EntryAt(p', d, q) && (d' == d || SharesTable(p', d, d', Pdi(q))))
  {
    hide EntryAt, Pdi, Shared, SharesTable, TablesKept;
    if d' != d && SharesTable(p, d, d', Pdi(q)) {
      SharesKept(p, p', dirs, d, d', Pdi(q));
      SharedEntry(p', d, d', q);
    }
  }

  /** A page keeps a frame of its own if no changed page gets that frame. */
  lemma OwnKept(p: Phys, p': Phys, dirs: set<int>, d: int, pages: set<Page>, q: Page, window: Page)
    requires |p| == |p'| == FRAMES && (forall d :: d in dirs ==> 0 < d < FRAMES) && d in dirs && Pdi(q) < 1023
    requires OnlyPages(p, p', dirs, d, pages) && OwnFrame(p, dirs, d, q, window)
    requires EntryAt(p', d, q) == EntryAt(p, d, q)
    requires forall r: Page :: r in pages && r != window && r != q && Present(EntryAt(p', d, r)) ==>
               FrameOf(EntryAt(p', d, r)) != FrameOf(EntryAt(p, d, q))
    ensures OwnFrame(p', dirs, d, q, window)
  {
    hide EntryAt, Pdi, Shared, SharesTable, Present, FrameOf, OnlyPages;
    forall d', r: Page | d' in dirs && Pdi(r) < 1023 && r != window && Present(EntryAt(p', d', r))
        && FrameOf(EntryAt(p', d', r)) == FrameOf(EntryAt(p', d, q))
      ensures r == q && (d' == d || SharesTable(p', d, d', Pdi(q)))
    {
      ChangedEntry(p, p', dirs, d, pages, d', r);
      if EntryAt(p', d', r) == EntryAt(p, d', r) && d' != d && SharesTable(p, d, d', Pdi(q)) {
        TablesStay(p, p', dirs, d, pages);
        SharesKept(p, p', dirs, d, d', Pdi(q));
      }
    }
  }

  lemma TablesStay(p: Phys, p': Phys, dirs: set<int>, d: int, pages: set<Page>)
    requires |p| == |p'| == FRAMES && (forall d :: d in dirs ==> 0 < d < FRAMES) && d in dirs
    requires OnlyPages(p, p', dirs, d, pages)
    ensures TablesKept(p, p', dirs, d)
  {
    hide TablesKept, EntryAt, Pdi;
  }

  /** A page that gets a frame which was mapped nowhere, and no other page gets it, has it for its own. */
  lemma OwnNew(p: Phys, p': Phys, dirs: set<int>, d: int, pages: set<Page>, q: Page, window: Page)
    requires |p| == |p'| == FRAMES && (forall d :: d in dirs ==> 0 < d < FRAMES) && d in dirs && Pdi(q) < 1023
    requires OnlyPages(p, p', dirs, d, pages) && MappedNowhere(p, dirs, window, FrameOf(EntryAt(p', d, q)))
    requires forall r: Page :: r in pages && r != window && r != q && Present(EntryAt(p', d, r)) ==>
               FrameOf(EntryAt(p', d, r)) != FrameOf(EntryAt(p', d, q))
    ensures OwnFrame(p', dirs, d, q, window)
  {
    hide EntryAt, Pdi, Shared, SharesTable, Present, FrameOf, OnlyPages;
    forall d', r: Page | d' in dirs && Pdi(r) < 1023 && r != window && Present(EntryAt(p', d', r))
        && FrameOf(EntryAt(p', d', r)) == FrameOf(EntryAt(p', d, q))
      ensures r == q && (d' == d || SharesTable(p', d, d', Pdi(q)))
    {
      ChangedEntry(p, p', dirs, d, pages, d', r);
    }
  }

  /** A frame that only one page had is behind no page once that one is unmapped. */
  lemma OwnUnmapped(p: Phys, p': Phys, dirs: set<int>, d: int, q: Page, window: Page)
    requires |p| == |p'| == FRAMES && (forall d :: d in dirs ==> 0 < d < FRAMES) && d in dirs && Pdi(q) < 1023
    requires OnlyPages(p, p', dirs, d, {q}) && OwnFrame(p, dirs, d, q, window) && !Present(EntryAt(p', d, q))
    ensures MappedNowhere(p', dirs, window, FrameOf(EntryAt(p, d, q)))
  {
    hide EntryAt, Pdi, Shared, SharesTable, Present, FrameOf, OnlyPages;
    TablesStay(p, p', dirs, d, {q});
    forall d', r: Page | d' in dirs && Pdi(r) < 1023 && r != window && Present(EntryAt(p', d', r))
      ensures FrameOf(EntryAt(p', d', r)) != FrameOf(EntryAt(p, d, q))
    {
      ChangedEntry(p, p', dirs, d, {q}, d', r);
      if d' != d && r == q && SharesTable(p, d, d', Pdi(q)) {
        SharesKept(p, p', dirs, d, d', Pdi(q));
        SharedEntry(p', d, d', q);
      }
    }
  }

  /** Equal directories and entries leave frames where they were. */
  lemma OwnSame(p: Phys, p': Phys, dirs: set<int>, d: int, q: Page, window: Page)
    requires |p| == |p'| == FRAMES && (forall d :: d in dirs ==> 0 < d < FRAMES) && d in dirs && Pdi(q) < 1023
    requires q != window
    requires SameDirectories(p, p', dirs) && SameEntries(p, p', dirs, {window}) && OwnFrame(p, dirs, d, q, window)
    ensures OwnFrame(p', dirs, d, q, window)
  {
    hide EntryAt, Pdi, Present, FrameOf;
  }

  // ---------- access through the self-map ----------

  /** Word `i` of the page that slot 1023 maps is directory entry `i`, and the page before it
      number `i` of the last four megabytes is table `i`. */
  lemma SelfMap(p: Phys, d: int, i: Index)
    requires |p| == FRAMES && 0 < d < FRAMES && SelfMapped(p, d)
    ensures EntryAt(p, d, PageAt(1023, i)) == p[d][i]
  {
    PartsPage(1023, i);
  }

  // ---------- what a write changes ----------

  /** Entries outside the self-map and outside `except` are the same in all spaces. */
  ghost predicate SameEntries(p: Phys, p': Phys, dirs: set<int>, except: set<Page>)
    requires |p| == FRAMES && |p'| == FRAMES && forall d :: d in dirs ==> 0 < d < FRAMES
  {
    forall d, q: Page :: d in dirs && Pdi(q) < 1023 && q !in except ==> EntryAt(p', d, q) == EntryAt(p, d, q)
  }

  ghost predicate SameFrames(p: Phys, p': Phys, except: set<int>) {
    |p'| == |p| && forall f :: 0 <= f < |p| && f !in except ==> p'[f] == p[f]
  }

  /** Writing a word of a table changes the entry of one page, in exactly the spaces that share the
      table. */
  lemma WriteEntry(p: Phys, dirs: set<int>, tables: set<int>, free: seq<int>, wi: Index, d: int, page: Page, v: u32)
    requires Layout(p, dirs, tables, free, wi) && d in dirs && Pdi(page) < 1023 && Present(p[d][Pdi(page)])
    ensures var p' := Poke(p, FrameOf(p[d][Pdi(page)]), Pti(page), v);
      && Layout(p', dirs, tables, free, wi) && SameDirectories(p, p', dirs) && SameFrames(p, p', tables)
      && SameEntries(p, p', dirs, {page})
      && (forall d' :: d' in dirs ==>
            EntryAt(p', d', page) == if SharesTable(p, d, d', Pdi(page)) then v else EntryAt(p, d', page))
      && (forall d' :: d' in dirs && d' != d && SharesTable(p, d, d', Pdi(page)) ==> Shared(Pdi(page)))
  {
    hide FrameOf, Present, Shared, Pdi, Pti, TablesApart, Layout;
    LayoutInside(p, dirs, tables, free, wi, d);
    LayoutDirs(p, dirs, tables, free, wi);
    var t := FrameOf(p[d][Pdi(page)]);
    var p' := Poke(p, t, Pti(page), v);
    TableFrame(p, dirs, tables, free, wi, d, Pdi(page));
    PokeWords(p, t, Pti(page), v);
    LayoutFrame(p, p', dirs, tables, free, wi);
    forall d', q: Page | d' in dirs && Pdi(q) < 1023 && !(q == page && SharesTable(p, d, d', Pdi(page)))
      ensures EntryAt(p', d', q) == EntryAt(p, d', q)
    {
      if Present(p[d'][Pdi(q)]) && FrameOf(p[d'][Pdi(q)]) == t && Pti(q) == Pti(page) {
        OneSlot(p, dirs, d, page, d', q);
      }
    }
    forall d' | d' in dirs && d' != d && SharesTable(p, d, d', Pdi(page)) ensures Shared(Pdi(page)) {
      OneSlot(p, dirs, d, page, d', page);
    }
  }

  lemma TableFrame(p: Phys, dirs: set<int>, tables: set<int>, free: seq<int>, wi: Index, d: int, i: Index)
    requires Layout(p, dirs, tables, free, wi) && d in dirs && i < 1023 && Present(p[d][i])
    ensures FrameOf(p[d][i]) in tables && FrameOf(p[d][i]) !in dirs && 0 < FrameOf(p[d][i])
    ensures TablesApart(p, dirs)
  {
    hide FrameOf, Present, Shared, TablesApart;
  }

  lemma OneSlot(p: Phys, dirs: set<int>, d: int, page: Page, d': int, q: Page)
    requires |p| == FRAMES && (forall d :: d in dirs ==> 0 < d < FRAMES) && TablesApart(p, dirs)
    requires d in dirs && d' in dirs && Pdi(page) < 1023 && Pdi(q) < 1023 && Present(p[d][Pdi(page)])
    requires Present(p[d'][Pdi(q)])
    requires FrameOf(p[d][Pdi(page)]) == FrameOf(p[d'][Pdi(q)]) && Pti(page) == Pti(q)
    ensures page == q && (d == d' || Shared(Pdi(page)))
  {
    hide FrameOf, Present, Shared, Pdi, Pti;
    PageParts(q);
    PageParts(page);
  }

  /** Writing a frame that is no directory and no table changes no entry. */
  lemma WriteData(p: Phys, dirs: set<int>, tables: set<int>, free: seq<int>, wi: Index, f: int, j: Index, v: u32)
    requires Layout(p, dirs, tables, free, wi) && 0 <= f < FRAMES && f !in dirs && f !in tables
    ensures var p' := Poke(p, f, j, v);
      && Layout(p', dirs, tables, free, wi) && SameDirectories(p, p', dirs) && SameFrames(p, p', {f})
      && SameEntries(p, p', dirs, {})
  {
    hide FrameOf, Present, Shared, Pdi, Pti, TablesApart;
    PokeWords(p, f, j, v);
    LayoutFrame(p, Poke(p, f, j, v), dirs, tables, free, wi);
  }

  lemma LayoutDirs(p: Phys, dirs: set<int>, tables: set<int>, free: seq<int>, wi: Index)
    requires Layout(p, dirs, tables, free, wi)
    ensures forall d :: d in dirs ==> 0 < d < FRAMES
  {
  }

  /** A frame of zeros becomes the table of an empty directory slot: no page gets mapped. */
  lemma AddTable(p: Phys, dirs: set<int>, tables: set<int>, free: seq<int>, wi: Index, d: int, i: Index, e: u32)
    requires Layout(p, dirs, tables, free, wi) && d in dirs && i < 1023 && !Present(p[d][i])
    requires Present(e) && 0 < FrameOf(e) < FRAMES && FrameOf(e) !in dirs && FrameOf(e) !in tables
    requires FrameOf(e) !in free && WritableBit(e)
    ensures var p' := Poke(p, d, i, e)[FrameOf(e) := Zeros()];
      && Layout(p', dirs, tables + {FrameOf(e)}, free, wi) && SameEntries(p, p', dirs, {})
      && p'[d][i] == e && (forall i' :: 0 <= i' < TABLE_SIZE && i' != i ==> p'[d][i'] == p[d][i'])
      && (forall d' :: d' in dirs && d' != d ==> p'[d'] == p[d'])
      && SameFrames(p, p', dirs + {FrameOf(e)})
  {
    hide FrameOf, Present, Shared, Pdi, Pti, TablesApart, TablesKnown, SameEntries;
    PokeWords(p, d, i, e);
    var p' := Poke(p, d, i, e)[FrameOf(e) := Zeros()];
    SlotAdded(p, p', dirs, tables, d, i, e);
    NoPageAdded(p, p', dirs, tables, d, i, e);
  }

  lemma SlotAdded(p: Phys, p': Phys, dirs: set<int>, tables: set<int>, d: int, i: Index, e: u32)
    requires |p| == |p'| == FRAMES && (forall d :: d in dirs ==> 0 < d < FRAMES) && d in dirs && i < 1023
    requires !Present(p[d][i])
    requires TablesKnown(p, dirs, tables) && TablesApart(p, dirs) && FrameOf(e) !in tables
    requires p'[d][i] == e && (forall k: Index :: k != i ==> p'[d][k] == p[d][k])
    requires forall d' :: d' in dirs && d' != d ==> p'[d'] == p[d']
    ensures TablesKnown(p', dirs, tables + {FrameOf(e)}) && TablesApart(p', dirs)
  {
    hide FrameOf, Present, Shared;
    forall d1, d2, i1: Index, i2: Index | d1 in dirs && d2 in dirs && i1 < 1023 && i2 < 1023
        && Present(p'[d1][i1]) && Present(p'[d2][i2]) && FrameOf(p'[d1][i1]) == FrameOf(p'[d2][i2])
      ensures i1 == i2 && (d1 == d2 || Shared(i1))
    {
      assert (d1 == d && i1 == i) || p'[d1][i1] == p[d1][i1];
      assert (d2 == d && i2 == i) || p'[d2][i2] == p[d2][i2];
    }
  }

  lemma NoPageAdded(p: Phys, p': Phys, dirs: set<int>, tables: set<int>, d: int, i: Index, e: u32)
    requires |p| == |p'| == FRAMES && (forall d :: d in dirs ==> 0 < d < FRAMES) && d in dirs && i < 1023
    requires !Present(p[d][i])
    requires TablesKnown(p, dirs, tables) && FrameOf(e) !in tables
    requires (forall t :: t in tables ==> 0 < t < FRAMES && t !in dirs)
    requires p'[d][i] == e && (forall k: Index :: k != i ==> p'[d][k] == p[d][k]) && p'[FrameOf(e)] == Zeros()
    requires forall f :: 0 <= f < FRAMES && f != d && f != FrameOf(e) ==> p'[f] == p[f]
    requires FrameOf(e) !in dirs
    ensures SameEntries(p, p', dirs, {})
  {
    hide FrameOf, Present, Pdi, Pti;
    NotPresentZero();
  }

  lemma NotPresentZero()
    ensures !Present(0)
  {
  }

  // ---------- the free list ----------

  lemma FreeChainPop(p: Phys, free: seq<int>, head: u32)
    requires |p| == FRAMES && AllInRange(free) && FreeChain(p, free, head) && free != []
    ensures AllInRange(free[1..]) && FreeChain(p, free[1..], p[free[0]][0])
  {
    hide FrameOf, Address;
    assert p[free[0]][0] == ChainLink(free, 1) == ChainLink(free[1..], 0);
    forall k | 0 <= k < |free[1..]| ensures p[free[1..][k]][0] == ChainLink(free[1..], k + 1) {
      assert free[1..][k] == free[k + 1];
      assert ChainLink(free[1..], k + 1) == ChainLink(free, k + 2);
    }
  }

  lemma FreeChainPush(p: Phys, free: seq<int>, head: u32, f: int)
    requires |p| == FRAMES && AllInRange(free) && FreeChain(p, free, head) && 0 < f < FRAMES && f !in free
    ensures AllInRange([f] + free) && FreeChain(Poke(p, f, 0, head), [f] + free, Address(f))
  {
    hide FrameOf, Address;
    var free', p' := [f] + free, Poke(p, f, 0, head);
    PokeWords(p, f, 0, head);
    assert forall k :: 0 < k < |free'| ==> free'[k] == free[k - 1];
    assert ChainLink(free', 1) == ChainLink(free, 0);
    forall k | 0 <= k < |free'| ensures p'[free'[k]][0] == ChainLink(free', k + 1) {
      if k > 0 { assert ChainLink(free', k + 1) == ChainLink(free, k) && free[k - 1] != f; }
    }
  }

  lemma LayoutPop(p: Phys, dirs: set<int>, tables: set<int>, free: seq<int>, wi: Index)
    requires Layout(p, dirs, tables, free, wi) && free != []
    ensures Layout(p, dirs, tables, free[1..], wi)
    ensures free[0] !in dirs && free[0] !in tables && free[0] !in free[1..] && 0 < free[0] < FRAMES
  {
    hide FrameOf, Present, Shared, TablesApart, TablesKnown;
  }

  lemma LayoutPush(p: Phys, dirs: set<int>, tables: set<int>, free: seq<int>, wi: Index, f: int)
    requires Layout(p, dirs, tables, free, wi)
    requires 0 < f < FRAMES && f !in dirs && f !in tables && f !in free
    ensures Layout(p, dirs, tables, [f] + free, wi)
  {
    hide FrameOf, Present, Shared, TablesApart, TablesKnown;
    assert forall k :: 0 < k < |free| + 1 ==> ([f] + free)[k] == free[k - 1];
  }

  /** Writes to tables leave the list alone. */
  lemma ChainKept(p: Phys, p': Phys, dirs: set<int>, tables: set<int>, free: seq<int>, wi: Index, head: u32)
    requires Layout(p, dirs, tables, free, wi) && FreeChain(p, free, head) && SameFrames(p, p', tables)
    ensures FreeChain(p', free, head)
  {
    hide FrameOf, Present, Shared, TablesApart, TablesKnown, ChainLink;
  }

  lemma ChainHead(p: Phys, free: seq<int>, head: u32)
    requires |p| == FRAMES && AllInRange(free) && FreeChain(p, free, head)
    ensures head == 0 <==> free == []
    ensures free != [] ==> head == Address(free[0]) && FrameOf(head) == free[0]
  {
  }

  lemma LayoutInside(p: Phys, dirs: set<int>, tables: set<int>, free: seq<int>, wi: Index, d: int)
    requires Layout(p, dirs, tables, free, wi) && d in dirs
    ensures |p| == FRAMES && wi < 1023 && 0 < d < FRAMES && SelfMapped(p, d) && Present(p[d][wi]) && AllInRange(free)
  {
  }

  // ---------- what an operation on one space changes ----------

  /** Tables that spaces have stay where they are. */
  ghost predicate SlotsStay(p: Phys, p': Phys, dirs: set<int>)
    requires |p| == |p'| == FRAMES && forall d :: d in dirs ==> 0 < d < FRAMES
  {
    forall d, i: Index :: d in dirs && i < 1023 && Present(p[d][i]) ==> p'[d][i] == p[d][i]
  }

  /** Tables stay where they are, and `d` gets no table that another space has. */
  ghost predicate TablesKept(p: Phys, p': Phys, dirs: set<int>, d: int)
    requires |p| == FRAMES && |p'| == FRAMES && (forall d :: d in dirs ==> 0 < d < FRAMES) && d in dirs
  {
    && SlotsStay(p, p', dirs)
    && forall d', i: Index :: d' in dirs && d' != d && i < 1023 && SharesTable(p', d, d', i) ==>
         SharesTable(p, d, d', i)
  }

  /** Only entries of `pages` change in space `d`, and in others only where they share the table. */
  ghost predicate OnlyPages(p: Phys, p': Phys, dirs: set<int>, d: int, pages: set<Page>)
    requires |p| == FRAMES && |p'| == FRAMES && (forall d :: d in dirs ==> 0 < d < FRAMES) && d in dirs
  {
    && TablesKept(p, p', dirs, d)
    && forall d', q: Page ::
         d' in dirs && Pdi(q) < 1023
         && (q !in pages || (d' != d && !(Shared(Pdi(q)) && SharesTable(p, d, d', Pdi(q)))))
         ==> EntryAt(p', d', q) == EntryAt(p, d', q)
  }

  /** Work on the list of free frames changes the entry of the window only. */
  lemma WindowOnly(p: Phys, p': Phys, dirs: set<int>, d: int, window: Page)
    requires |p| == |p'| == FRAMES && (forall d :: d in dirs ==> 0 < d < FRAMES) && d in dirs && Shared(Pdi(window))
    requires SameDirectories(p, p', dirs) && SameEntries(p, p', dirs, {window})
    requires forall d' :: d' in dirs ==> SharesTable(p, d, d', Pdi(window))
    ensures OnlyPages(p, p', dirs, d, {window})
  {
    hide EntryAt, Pdi, Shared, Present, FrameOf;
  }

  lemma PagesAlong(p: Phys, p1: Phys, p2: Phys, dirs: set<int>, d: int, a: set<Page>, b: set<Page>)
    requires |p| == |p1| == |p2| == FRAMES && (forall d :: d in dirs ==> 0 < d < FRAMES) && d in dirs
    requires OnlyPages(p, p1, dirs, d, a) && OnlyPages(p1, p2, dirs, d, b)
    ensures OnlyPages(p, p2, dirs, d, a + b)
  {
    hide EntryAt, Pdi, Shared, FrameOf, Present;
    forall d' | d' in dirs
      ensures forall i: Index :: i < 1023 && SharesTable(p1, d, d', i) ==> SharesTable(p2, d, d', i)
    {
    }
  }

  /** The frames of the tables of a space. */
  ghost function TablesOf(p: Phys, d: int): set<int>
    requires |p| == FRAMES && 0 < d < FRAMES
  {
    set i: Index | i < 1023 && Present(p[d][i]) :: FrameOf(p[d][i])
  }

  /** Directory `d` gets entry `e` in slot `i`; no other slot of any directory changes. */
  ghost predicate OnlySlot(p: Phys, p': Phys, dirs: set<int>, d: int, i: Index, e: u32)
    requires |p| == FRAMES && |p'| == FRAMES && forall d :: d in dirs ==> 0 < d < FRAMES
  {
    && (d in dirs ==> p'[d][i] == e && forall k: Index :: k != i ==> p'[d][k] == p[d][k])
    && forall d' :: d' in dirs && d' != d ==> p'[d'] == p[d']
  }

  /** The entry of one page is written, in a table that exists. */
  lemma WriteOnePage(p: Phys, dirs: set<int>, tables: set<int>, free: seq<int>, wi: Index, d: int, page: Page, v: u32)
    requires Layout(p, dirs, tables, free, wi) && d in dirs && Pdi(page) < 1023 && Present(p[d][Pdi(page)])
    ensures var p' := Poke(p, FrameOf(p[d][Pdi(page)]), Pti(page), v);
      && Layout(p', dirs, tables, free, wi) && SameDirectories(p, p', dirs)
      && SameFrames(p, p', tables) && SameFrames(p, p', TablesOf(p, d))
      && OnlyPages(p, p', dirs, d, {page}) && EntryAt(p', d, page) == v
      && (forall d' :: d' in dirs ==> EntryAt(p', d', page) == v || EntryAt(p', d', page) == EntryAt(p, d', page))
  {
    hide FrameOf, Present, Shared, Pdi, Pti, TablesApart, EntryAt, Layout;
    LayoutInside(p, dirs, tables, free, wi, d);
    WriteEntry(p, dirs, tables, free, wi, d, page, v);
    assert FrameOf(p[d][Pdi(page)]) in TablesOf(p, d);
  }

  /** A write that makes no page present on a free frame. */
  lemma WriteKeepsUnmapped(p: Phys, p': Phys, dirs: set<int>, window: Page, free: seq<int>, d: int, page: Page, v: u32)
    requires |p| == |p'| == FRAMES && (forall d :: d in dirs ==> 0 < d < FRAMES) && d in dirs
    requires FreeUnmapped(p, dirs, window, free) && OnlyPages(p, p', dirs, d, {page})
    requires forall d' :: d' in dirs ==> EntryAt(p', d', page) == v || EntryAt(p', d', page) == EntryAt(p, d', page)
    requires Present(v) ==> FrameOf(v) !in free
    ensures FreeUnmapped(p', dirs, window, free)
  {
    hide EntryAt, Pdi, Present, FrameOf, Shared, SharesTable, TablesKept;
  }

  /** Entries but the window's are the same, and frames leave the list or come to it unmapped. */
  lemma SameUnmapped(p: Phys, p': Phys, dirs: set<int>, window: Page, free: seq<int>, free': seq<int>)
    requires |p| == |p'| == FRAMES && (forall d :: d in dirs ==> 0 < d < FRAMES)
    requires FreeUnmapped(p, dirs, window, free) && SameEntries(p, p', dirs, {window})
    requires forall f :: f in free' ==> f in free || MappedNowhere(p, dirs, window, f)
    ensures FreeUnmapped(p', dirs, window, free')
  {
    hide EntryAt, Pdi, Present, FrameOf;
  }

  lemma NowhereSame(p: Phys, p': Phys, dirs: set<int>, window: Page, f: int)
    requires |p| == |p'| == FRAMES && (forall d :: d in dirs ==> 0 < d < FRAMES)
    requires MappedNowhere(p, dirs, window, f) && SameEntries(p, p', dirs, {window})
    ensures MappedNowhere(p', dirs, window, f)
  {
    hide EntryAt, Pdi, Present, FrameOf;
  }

  lemma FreeIsNowhere(p: Phys, dirs: set<int>, window: Page, free: seq<int>, f: int)
    requires |p| == FRAMES && (forall d :: d in dirs ==> 0 < d < FRAMES) && FreeUnmapped(p, dirs, window, free)
    requires f in free
    ensures MappedNowhere(p, dirs, window, f)
  {
    hide EntryAt, Pdi, Present, FrameOf;
  }

  /** The window has the same table in all spaces. */
  lemma WindowShared(p: Phys, dirs: set<int>, tables: set<int>, free: seq<int>, wi: Index, d: int)
    requires Layout(p, dirs, tables, free, wi) && d in dirs
    ensures 0 < d < FRAMES && forall d' :: d' in dirs ==> 0 < d' < FRAMES && SharesTable(p, d, d', wi)
  {
    hide FrameOf, Present, Shared, TablesApart, TablesKnown;
  }

  /** A new table, linked and zeroed, leaves the list of the other free frames alone. */
  lemma TableKeepsChain(p: Phys, p': Phys, dirs: set<int>, tables: set<int>, free: seq<int>, wi: Index, head: u32,
                        t: int)
    requires Layout(p, dirs, tables, free, wi) && FreeChain(p, free, head) && t !in free
    requires SameFrames(p, p', dirs + {t})
    ensures FreeChain(p', free, head)
  {
    hide FrameOf, Present, Shared, TablesApart, TablesKnown, ChainLink;
  }

  /** The directory entry of a slot once it has a table. */
  ghost function SlotAfter(pde: u32, free: seq<int>, flags: FlagBits): u32
    requires AllInRange(free) && (Present(pde) || free != [])
  {
    if Present(pde) then pde else CreateEntry(Address(free[0]), TableFlags(flags))
  }

  /** The word for a new table: its frame, present and writable, and open to user pages if asked for. */
  function TableWord(frame: int, flags: FlagBits): int {
    4096 * frame + if flags / 4 % 2 == 1 then 7 else 3
  }

  lemma SlotAfterBits(pde: u32, free: seq<int>, flags: FlagBits)
    requires AllInRange(free) && (Present(pde) || free != [])
    ensures var e := SlotAfter(pde, free, flags);
      && Present(e) && (Present(pde) ==> e == pde)
      && (!Present(pde) ==>
            UserBit(e) == UserBit(flags) && FrameOf(e) == free[0] && e == TableWord(free[0], flags))
  {
    hide Address, Present, CreateEntry, TableFlags, UserBit, FrameOf;
    if !Present(pde) {
      CreatedEntry(Address(free[0]), TableFlags(flags));
      TableFlagBits(flags);
      TableEntry(free[0], flags);
      AddressFrame(free[0]);
    }
  }

  /** An entry written after its table was created. */
  lemma TableThenEntry(p0: Phys, p1: Phys, p2: Phys, dirs: set<int>, tables0: set<int>, tables: set<int>, d: int,
                       page: Page, window: Page, e: u32)
    requires |p0| == |p1| == |p2| == FRAMES && d in dirs && (forall d :: d in dirs ==> 0 < d < FRAMES)
    requires Shared(Pdi(window)) && !Present(p0[d][Pdi(page)]) && TablesKnown(p0, dirs, tables0)
    requires FrameOf(e) !in tables0
    requires Pdi(page) < 1023 && forall d' :: d' in dirs ==> SharesTable(p0, d, d', Pdi(window))
    requires OnlySlot(p0, p1, dirs, d, Pdi(page), e) && SameEntries(p0, p1, dirs, {window})
    requires SameFrames(p0, p1, dirs + tables)
    requires SameDirectories(p1, p2, dirs) && OnlyPages(p1, p2, dirs, d, {page}) && SameFrames(p1, p2, tables)
    ensures OnlySlot(p0, p2, dirs, d, Pdi(page), e) && OnlyPages(p0, p2, dirs, d, {page, window})
    ensures SameFrames(p0, p2, dirs + tables)
  {
    hide FrameOf, Present, Shared, Pdi, EntryAt, SharesTable, TablesKnown, OnlyPages, SameEntries;
    TableOnly(p0, p1, dirs, tables0, d, page, window, e);
    PagesAlong(p0, p1, p2, dirs, d, {window}, {page});
    assert {window} + {page} == {page, window};
  }

  lemma TableOnly(p: Phys, p': Phys, dirs: set<int>, tables: set<int>, d: int, page: Page, window: Page, e: u32)
    requires |p| == |p'| == FRAMES && d in dirs && (forall d :: d in dirs ==> 0 < d < FRAMES)
    requires Shared(Pdi(window)) && !Present(p[d][Pdi(page)]) && TablesKnown(p, dirs, tables) && FrameOf(e) !in tables
    requires Pdi(page) < 1023 && forall d' :: d' in dirs ==> SharesTable(p, d, d', Pdi(window))
    requires OnlySlot(p, p', dirs, d, Pdi(page), e) && SameEntries(p, p', dirs, {window})
    ensures OnlyPages(p, p', dirs, d, {window})
  {
    hide FrameOf, Present, Shared, Pdi, EntryAt;
    forall d', i: Index | d' in dirs && d' != d && i < 1023 && SharesTable(p', d, d', i)
      ensures SharesTable(p, d, d', i)
    {
    }
  }

  /** An entry written in a table that was there. */
  lemma EntryOnly(p: Phys, p': Phys, dirs: set<int>, tables: set<int>, d: int, page: Page, window: Page)
    requires |p| == |p'| == FRAMES && d in dirs && (forall d :: d in dirs ==> 0 < d < FRAMES)
    requires SameDirectories(p, p', dirs) && OnlyPages(p, p', dirs, d, {page}) && SameFrames(p, p', tables)
    ensures OnlySlot(p, p', dirs, d, Pdi(page), p[d][Pdi(page)]) && OnlyPages(p, p', dirs, d, {page, window})
    ensures SameFrames(p, p', dirs + tables)
  {
    hide FrameOf, Present, Shared, Pdi, EntryAt, SharesTable;
  }

  lemma SlotIs(p: Phys, p': Phys, dirs: set<int>, d: int, i: Index, e: u32)
    requires |p| == |p'| == FRAMES && d in dirs && (forall d :: d in dirs ==> 0 < d < FRAMES)
    requires OnlySlot(p, p', dirs, d, i, e)
    ensures p'[d][i] == e
  {
  }

  /** A page whose slot has no table is not mapped. */
  lemma NoTable(p: Phys, d: int, page: Page)
    requires |p| == FRAMES && 0 < d < FRAMES && !Present(p[d][Pdi(page)])
    ensures !Present(EntryAt(p, d, page))
  {
    hide FrameOf, Pdi;
  }

  lemma SameEntry(p: Phys, p': Phys, dirs: set<int>, d: int, page: Page, window: Page)
    requires |p| == |p'| == FRAMES && d in dirs && (forall d :: d in dirs ==> 0 < d < FRAMES) && Pdi(page) < 1023
    requires SameEntries(p, p', dirs, {window}) && page != window
    ensures EntryAt(p', d, page) == EntryAt(p, d, page)
  {
    hide EntryAt, Pdi;
  }

  lemma LastSlot(p: Phys, d: int, page: Page)
    requires |p| == FRAMES && 0 < d < FRAMES && SelfMapped(p, d)
    ensures Pdi(page) == 1023 ==> Present(p[d][Pdi(page)])
  {
  }

  lemma BehindPage(p: Phys, dirs: set<int>, window: Page, free: seq<int>, d: int, page: Page)
    requires |p| == FRAMES && (forall d :: d in dirs ==> 0 < d < FRAMES) && FreeUnmapped(p, dirs, window, free)
    requires d in dirs
    requires Pdi(page) < 1023 && page != window && Present(EntryAt(p, d, page))
    ensures FrameOf(EntryAt(p, d, page)) !in free
  {
    hide EntryAt, Pdi, FrameOf, Present;
  }

  lemma FewerExceptions(p: Phys, p': Phys, dirs: set<int>, except: set<Page>)
    requires |p| == |p'| == FRAMES && (forall d :: d in dirs ==> 0 < d < FRAMES) && SameEntries(p, p', dirs, {})
    ensures SameEntries(p, p', dirs, except)
  {
    hide EntryAt, Pdi;
  }

  lemma EntryInTable(p: Phys, d: int, page: Page)
    requires |p| == FRAMES && 0 <= d < FRAMES && Present(p[d][Pdi(page)])
    ensures EntryAt(p, d, page) == p[FrameOf(p[d][Pdi(page)])][Pti(page)]
  {
  }

  /** Memory is determined by the entries of a space if nothing but words of its tables may differ. */
  lemma EntriesDetermine(p: Phys, p': Phys, d: int)
    requires |p| == |p'| == FRAMES && 0 < d < FRAMES && p'[d] == p[d] && SameFrames(p, p', TablesOf(p, d))
    requires forall q: Page :: Pdi(q) < 1023 ==> EntryAt(p', d, q) == EntryAt(p, d, q)
    ensures p' == p
  {
    hide FrameOf, Present, Pdi, Pti;
    forall f | 0 <= f < FRAMES && f in TablesOf(p, d) ensures p'[f] == p[f] {
      var i: Index :| i < 1023 && Present(p[d][i]) && FrameOf(p[d][i]) == f;
      forall j: Index | true ensures p'[f][j] == p[f][j] {
        PartsPage(i, j);
        assert EntryAt(p', d, PageAt(i, j)) == EntryAt(p, d, PageAt(i, j));
      }
    }
  }

  lemma PageKept(p: Phys, p': Phys, dirs: set<int>, d: int, page: Page, other: Page)
    requires |p| == |p'| == FRAMES && d in dirs && (forall d :: d in dirs ==> 0 < d < FRAMES)
    requires OnlyPages(p, p', dirs, d, {page})
    requires Pdi(other) < 1023 && other != page
    ensures EntryAt(p', d, other) == EntryAt(p, d, other)
  {
    hide EntryAt, Pdi;
  }

  lemma TwoWrites(p: Phys, p1: Phys, p2: Phys, dirs: set<int>, d: int, a: set<Page>, b: set<Page>)
    requires |p| == |p1| == |p2| == FRAMES && d in dirs && (forall d :: d in dirs ==> 0 < d < FRAMES)
    requires OnlyPages(p, p1, dirs, d, a) && SameDirectories(p, p1, dirs) && SameFrames(p, p1, TablesOf(p, d))
    requires OnlyPages(p1, p2, dirs, d, b) && SameDirectories(p1, p2, dirs) && SameFrames(p1, p2, TablesOf(p1, d))
    ensures OnlyPages(p, p2, dirs, d, a + b) && SameDirectories(p, p2, dirs) && SameFrames(p, p2, TablesOf(p, d))
    ensures TablesOf(p2, d) == TablesOf(p, d)
  {
    hide EntryAt, Pdi, FrameOf, Present, Shared;
    assert TablesOf(p1, d) == TablesOf(p, d);
  }

  lemma SameAlong(p: Phys, p1: Phys, p2: Phys, dirs: set<int>, except: set<Page>)
    requires |p| == |p1| == |p2| == FRAMES && (forall d :: d in dirs ==> 0 < d < FRAMES)
    requires SameDirectories(p, p1, dirs) && SameEntries(p, p1, dirs, except)
    requires SameDirectories(p1, p2, dirs) && SameEntries(p1, p2, dirs, except)
    ensures SameDirectories(p, p2, dirs) && SameEntries(p, p2, dirs, except)
  {
    hide EntryAt, Pdi;
  }

  lemma NothingChanged(p: Phys, dirs: set<int>, except: set<Page>)
    requires |p| == FRAMES && (forall d :: d in dirs ==> 0 < d < FRAMES)
    ensures SameDirectories(p, p, dirs) && SameEntries(p, p, dirs, except)
  {
  }

  lemma LayoutFree(p: Phys, dirs: set<int>, tables: set<int>, free: seq<int>, wi: Index)
    requires Layout(p, dirs, tables, free, wi)
    ensures NoDuplicates(free) && AllInRange(free)
    ensures forall k :: 0 <= k < |free| ==> free[k] !in dirs && free[k] !in tables
  {
    hide FrameOf, Present, Shared, TablesApart, TablesKnown;
  }

  lemma TablesAreKnown(p: Phys, dirs: set<int>, tables: set<int>, free: seq<int>, wi: Index)
    requires Layout(p, dirs, tables, free, wi)
    ensures forall d :: d in dirs ==> 0 < d < FRAMES
    ensures TablesKnown(p, dirs, tables)
  {
    hide FrameOf, Present, Shared, TablesApart, TablesKnown;
  }

  lemma FramesAlong(p: Phys, p1: Phys, p2: Phys, a: set<int>, b: set<int>)
    requires SameFrames(p, p1, a) && SameFrames(p1, p2, b) && a <= b
    ensures SameFrames(p, p2, b)
  {
  }

  lemma SameFramesTrivial(p: Phys, except: set<int>)
    ensures SameFrames(p, p, except)
  {
  }

  /** The window is the same page in all spaces. */
  lemma SameWindow(p: Phys, dirs: set<int>, tables: set<int>, free: seq<int>, wi: Index, d: int, d': int, window: Page)
    requires Layout(p, dirs, tables, free, wi) && d in dirs && d' in dirs && Pdi(window) == wi
    ensures EntryAt(p, d', window) == EntryAt(p, d, window)
  {
    hide FrameOf, Present, Shared, TablesApart, TablesKnown, Pdi, Pti;
  }

  /** Memory with one directory, a table for the lower memory map and one for the kernel, and no
      page mapped, meets the layout. */
  lemma FirstLayout() returns (p: Phys)
    ensures p == seq(FRAMES, f => FirstFrame(f)) && Layout(p, {1}, {2, 3}, [], 768) && FreeChain(p, [], 0)
    ensures forall q: Page :: Pdi(q) < 1023 ==> EntryAt(p, 1, q) == 0
  {
    hide FrameOf, Present, Address, CreateEntry, Pdi, Pti;
    p := seq<Frame>(FRAMES, f => FirstFrame(f));
    NotPresentZero();
    CreatedEntry(Address(1), WRITABLE);
    CreatedEntry(Address(2), WRITABLE);
    CreatedEntry(Address(3), WRITABLE);
    AddressFrame(1);
    AddressFrame(2);
    AddressFrame(3);
    assert forall i: Index :: i != 0 && i != 768 && i != 1023 ==> !Present(p[1][i]);
  }

  function FirstFrame(f: int): Frame {
    if f == 1 then seq(TABLE_SIZE, i => FirstSlot(i)) else Zeros()
  }

  function FirstSlot(i: int): u32 {
    if i == 1023 then CreateEntry(Address(1), WRITABLE)
    else if i == 768 then CreateEntry(Address(2), WRITABLE)
    else if i == 0 then CreateEntry(Address(3), WRITABLE)
    else 0
  }

  lemma AddressFrame(f: int)
    requires 0 <= f < FRAMES
    ensures FrameOf(Address(f)) == f
  {
    LowBits(f, 0);
  }
}
