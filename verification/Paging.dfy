/** Paging in the kernel (src/memory/mem.c): free frames, mapping and unmapping of pages. All
    paging structures are reached through the self-map of the current directory. */
module Paging {
  import opened Words
  import opened Entries
  import opened PageTables

  const DIRECTORY_PAGE: Page := 0xF_FFFF

  class Memory {
    const phys: array<Frame>
    /** The page through which the first free frame is read and written. */
    const window: Page
    var currentPageDir: u32
    var freeFramePaddr: u32
    var usedFrames: u32
    var totalFrames: u32

    ghost var dirs: set<int>
    ghost var tables: set<int>
    ghost var free: seq<int>

    ghost function Ram(): Phys
      reads phys
    {
      phys[..]
    }

    ghost function Dir(): int
      reads this`currentPageDir
    {
      FrameOf(currentPageDir)
    }

    ghost predicate Valid()
      reads this, phys
    {
      && |Ram()| == FRAMES && Dir() in dirs && currentPageDir == Address(Dir()) && Shared(Pdi(window))
      && Layout(Ram(), dirs, tables, free, Pdi(window))
      && FreeChain(Ram(), free, freeFramePaddr) && FreeUnmapped(Ram(), dirs, window, free)
      && (free != [] ==> EntryAt(Ram(), Dir(), window) == CreateEntry(freeFramePaddr, WRITABLE))
      && Wrap32(usedFrames + |free|) == totalFrames
    }

    /** Memory as start-up finds it: directories and tables are laid out, no frame is free. */
    constructor (ram: array<Frame>, window: Page, directory: u32, ghost dirs: set<int>, ghost tables: set<int>)
      requires Shared(Pdi(window)) && Layout(ram[..], dirs, tables, [], Pdi(window))
      requires directory == Address(FrameOf(directory)) && FrameOf(directory) in dirs
      ensures Valid() && phys == ram && this.window == window && currentPageDir == directory
      ensures free == [] && this.dirs == dirs && this.tables == tables && usedFrames == totalFrames == 0
    {
      hide FrameOf, Address, Pdi, Layout, Shared;
      phys := ram;
      this.window := window;
      currentPageDir := directory;
      freeFramePaddr, usedFrames, totalFrames := 0, 0, 0;
      this.dirs, this.tables, free := dirs, tables, [];
      new;
      LayoutDirs(Ram(), dirs, tables, [], Pdi(window));
      LayoutInside(Ram(), dirs, tables, [], Pdi(window), FrameOf(directory));
    }

    // ---------- memory access through the page tables ----------

    /** The processor's walk: directory entry, table entry, word. */
    method Load(page: Page, j: Index) returns (v: u32)
      requires |Ram()| == FRAMES && Present(EntryAt(Ram(), Dir(), page))
      ensures v == Ram()[FrameOf(EntryAt(Ram(), Dir(), page))][j]
    {
      hide FrameOf, Pdi, Pti;
      NotPresentZero();
      var pde := phys[FrameOf(currentPageDir)][Pdi(page)];
      var pte := phys[FrameOf(pde)][Pti(page)];
      v := phys[FrameOf(pte)][j];
    }

    method Store(page: Page, j: Index, v: u32)
      requires |Ram()| == FRAMES && Present(EntryAt(Ram(), Dir(), page))
      modifies phys
      ensures Ram() == Poke(old(Ram()), FrameOf(EntryAt(old(Ram()), Dir(), page)), j, v)
    {
      hide FrameOf, Pdi, Pti;
      NotPresentZero();
      var pde := phys[FrameOf(currentPageDir)][Pdi(page)];
      var pte := phys[FrameOf(pde)][Pti(page)];
      phys[FrameOf(pte)] := phys[FrameOf(pte)][j := v];
    }

    /** The macros PDE and PTE. */
    method ReadPde(i: Index) returns (v: u32)
      requires |Ram()| == FRAMES && Dir() > 0 && SelfMapped(Ram(), Dir())
      ensures v == Ram()[Dir()][i]
    {
      SelfMap(Ram(), Dir(), 1023);
      v := Load(DIRECTORY_PAGE, i);
    }

    method WritePde(i: Index, v: u32)
      requires |Ram()| == FRAMES && Dir() > 0 && SelfMapped(Ram(), Dir())
      modifies phys
      ensures Ram() == Poke(old(Ram()), Dir(), i, v)
    {
      SelfMap(Ram(), Dir(), 1023);
      Store(DIRECTORY_PAGE, i, v);
    }

    method ReadPte(i: Index, j: Index) returns (v: u32)
      requires |Ram()| == FRAMES && Dir() > 0 && SelfMapped(Ram(), Dir()) && Present(Ram()[Dir()][i])
      ensures v == Ram()[FrameOf(Ram()[Dir()][i])][j]
    {
      SelfMap(Ram(), Dir(), i);
      v := Load(PageAt(1023, i), j);
    }

    method WritePte(i: Index, j: Index, v: u32)
      requires |Ram()| == FRAMES && Dir() > 0 && SelfMapped(Ram(), Dir()) && Present(Ram()[Dir()][i])
      modifies phys
      ensures Ram() == Poke(old(Ram()), FrameOf(old(Ram())[Dir()][i]), j, v)
    {
      SelfMap(Ram(), Dir(), i);
      Store(PageAt(1023, i), j, v);
    }

    method GetEntry(page: Page) returns (v: u32)
      requires |Ram()| == FRAMES && Dir() > 0 && SelfMapped(Ram(), Dir())
      ensures v == EntryAt(Ram(), Dir(), page)
    {
      var pde := ReadPde(Pdi(page));
      if !Present(pde) {
        return 0;
      }
      v := ReadPte(Pdi(page), Pti(page));
    }

    /** Makes another directory the current one. */
    method SetPageDir(paddr: u32)
      requires Valid() && paddr == Address(FrameOf(paddr)) && FrameOf(paddr) in dirs
      modifies this`currentPageDir
      ensures Valid() && currentPageDir == paddr
    {
      hide FrameOf, Pdi, Pti, Present, CreateEntry, FreeChain, TablesApart, TablesKnown, Address, Wrap32;
      if paddr != currentPageDir {
        SameWindow(Ram(), dirs, tables, free, Pdi(window), Dir(), FrameOf(paddr), window);
        currentPageDir := paddr;
      }
    }

    // ---------- free frames ----------

    /** Valid, spelled out for callers that do not look inside. */
    lemma Inside()
      requires Valid()
      ensures forall d :: d in dirs ==> 0 < d < FRAMES
      ensures |Ram()| == FRAMES && Dir() in dirs && 0 < Dir() && SelfMapped(Ram(), Dir()) && AllInRange(free)
      ensures Layout(Ram(), dirs, tables, free, Pdi(window)) && Present(Ram()[Dir()][Pdi(window)]) && Pdi(window) < 1023
      ensures FreeUnmapped(Ram(), dirs, window, free) && Shared(Pdi(window))
    {
    }

    /** `frame` is none of the frames that paging itself uses. */
    ghost predicate Foreign(frame: int)
      reads this
    {
      0 < frame < FRAMES && frame !in dirs && frame !in tables && frame !in free
    }

    /** `frame` is in use by nobody. */
    ghost predicate Unused(frame: int)
      reads this, phys
    {
      && |Ram()| == FRAMES && (forall d :: d in dirs ==> 0 < d < FRAMES)
      && Foreign(frame) && MappedNowhere(Ram(), dirs, window, frame)
    }

    method SetWindow(paddr: u32)
      requires |Ram()| == FRAMES && Dir() in dirs && Layout(Ram(), dirs, tables, free, Pdi(window))
      modifies phys
      ensures |Ram()| == FRAMES && Layout(Ram(), dirs, tables, free, Pdi(window))
      ensures EntryAt(Ram(), Dir(), window) == CreateEntry(paddr, WRITABLE)
      ensures SameDirectories(old(Ram()), Ram(), dirs) && SameEntries(old(Ram()), Ram(), dirs, {window})
      ensures SameFrames(old(Ram()), Ram(), tables)
    {
      hide FrameOf, Pdi, Pti, Present, CreateEntry, TablesApart, TablesKnown, Poke;
      WriteEntry(Ram(), dirs, tables, free, Pdi(window), Dir(), window, CreateEntry(paddr, WRITABLE));
      WritePte(Pdi(window), Pti(window), CreateEntry(paddr, WRITABLE));
    }

    /** Reclaims a frame that nobody uses. */
    method FreeFrame(paddr: u32)
      requires Valid() && paddr == Address(FrameOf(paddr)) && Unused(FrameOf(paddr))
      modifies this`freeFramePaddr, this`usedFrames, this`free, phys
      ensures Valid() && free == [FrameOf(paddr)] + old(free) && usedFrames == Add32(old(usedFrames), -1)
      ensures SameDirectories(old(Ram()), Ram(), dirs) && SameEntries(old(Ram()), Ram(), dirs, {window})
      ensures SameFrames(old(Ram()), Ram(), tables + {FrameOf(paddr)})
    {
      hide FrameOf, Address, Pdi, Pti, Present, CreateEntry, Layout, FreeChain, EntryAt, Poke, Wrap32, Add32, Shared,
        FreeUnmapped, MappedNowhere;
      ghost var f, before := FrameOf(paddr), Ram();
      LayoutInside(before, dirs, tables, free, Pdi(window), Dir());
      LayoutDirs(before, dirs, tables, free, Pdi(window));
      CountMoved(usedFrames, |free|);
      usedFrames := Add32(usedFrames, -1);
      SetWindow(paddr);
      ghost var p1 := Ram();
      ChainKept(before, p1, dirs, tables, free, Pdi(window), freeFramePaddr);
      CreatedEntry(paddr, WRITABLE);
      WriteData(p1, dirs, tables, free, Pdi(window), f, 0, freeFramePaddr);
      FreeChainPush(p1, free, freeFramePaddr, f);
      Store(window, 0, freeFramePaddr);
      LayoutPush(Ram(), dirs, tables, free, Pdi(window), f);
      SameAlong(before, p1, Ram(), dirs, {window});
      SameUnmapped(before, Ram(), dirs, window, free, [f] + free);
      freeFramePaddr := paddr;
      free := [f] + free;
    }

    /** Hands out a frame that nobody uses; panics when there is none. */
    method AllocFrame() returns (r: Outcome<u32>)
      requires Valid()
      modifies this`freeFramePaddr, this`usedFrames, this`free, phys
      ensures r.Panic? <==> old(free) == []
      ensures r.Panic? ==> Valid() && unchanged(this) && unchanged(phys)
      ensures r.Return? ==>
        && Valid() && r.value == Address(old(free)[0]) && free == old(free)[1..]
        && usedFrames == Add32(old(usedFrames), 1)
        && Unused(FrameOf(r.value)) && FrameOf(r.value) == old(free)[0]
        && SameDirectories(old(Ram()), Ram(), dirs) && SameEntries(old(Ram()), Ram(), dirs, {window})
        && SameFrames(old(Ram()), Ram(), tables)
    {
      hide FrameOf, Address, Pdi, Pti, Present, CreateEntry, Layout, FreeChain, EntryAt, Poke, Wrap32, Add32, Shared,
        FreeUnmapped, MappedNowhere;
      ghost var before := Ram();
      LayoutInside(before, dirs, tables, free, Pdi(window), Dir());
      LayoutDirs(before, dirs, tables, free, Pdi(window));
      ChainHead(before, free, freeFramePaddr);
      if freeFramePaddr == 0 {
        return Panic;
      }
      CountMoved(usedFrames, |free|);
      usedFrames := Add32(usedFrames, 1);
      var frame := freeFramePaddr;
      CreatedEntry(freeFramePaddr, WRITABLE);
      freeFramePaddr := Load(window, 0);
      FreeChainPop(before, free, frame);
      LayoutPop(before, dirs, tables, free, Pdi(window));
      FreeIsNowhere(before, dirs, window, free, free[0]);
      ghost var was := free;
      free := free[1..];
      SetWindow(freeFramePaddr);
      ChainKept(before, Ram(), dirs, tables, free, Pdi(window), freeFramePaddr);
      SameUnmapped(before, Ram(), dirs, window, was, free);
      NowhereSame(before, Ram(), dirs, window, was[0]);
      r := Return(frame);
    }

    /** Adds the frames that start in [start, end) to the free frames; the last one may reach
        beyond `end`. */
    method InitFrameRegion(start: u32, end: u32) returns (r: Outcome<()>)
      requires Valid() && 0 < start && end <= TWO_TO_THE_32 - PAGE_SIZE
      requires forall f: nat :: FrameCeiling(start) <= f < FrameCeiling(end) ==> Unused(f)
      modifies this`freeFramePaddr, this`usedFrames, this`totalFrames, this`free, phys
      ensures Valid() && (r.Panic? <==> end <= start)
      ensures r.Panic? ==> unchanged(this) && unchanged(phys)
      ensures r.Return? ==>
        var first, stop := FrameCeiling(start), FrameCeiling(end);
        && first <= stop && free == Region(first, stop) + old(free)
        && usedFrames == old(usedFrames) && totalFrames == Wrap32(old(totalFrames) + (stop - first))
        && SameFrames(old(Ram()), Ram(), tables + RegionSet(first, stop))
        && SameDirectories(old(Ram()), Ram(), dirs) && SameEntries(old(Ram()), Ram(), dirs, {window})
    {
      hide FrameOf, Pdi, Pti, Present, Layout, FreeChain, EntryAt, Wrap32, Add32, Shared, SameEntries, SameDirectories,
        SameFrames, FrameCeiling, AlignNextFrame, Valid, Region, RegionSet, MappedNowhere;
      if end <= start {
        return Panic;
      }
      AlignedStart(start);
      CeilingGrows(start, end);
      CountFrom(totalFrames, 0);
      ghost var p0 := Ram();
      Inside();
      NothingChanged(p0, dirs, {window});
      var f := AlignNextFrame(Add32(start, -1));
      ghost var i, first := FrameCeiling(start), FrameCeiling(start);
      FrameBefore(i, end);
      RegionEmpty(first, free);
      SameFramesTrivial(p0, tables + RegionSet(first, first));
      while f < end
        invariant Valid() && first <= i <= FrameCeiling(end) && f == PAGE_SIZE * i
        invariant (f < end <==> i < FrameCeiling(end))
        invariant free == Region(first, i) + old(free)
        invariant usedFrames == old(usedFrames) && totalFrames == Wrap32(old(totalFrames) + (i - first))
        invariant unchanged(this`dirs) && unchanged(this`tables) && unchanged(this`currentPageDir)
        invariant |Ram()| == FRAMES && SameDirectories(p0, Ram(), dirs) && SameEntries(p0, Ram(), dirs, {window})
        invariant SameFrames(p0, Ram(), tables + RegionSet(first, i))
        decreases FrameCeiling(end) - i
      {
        CountFrom(old(totalFrames), i - first);
        ghost var p1 := Ram();
        assert old(Unused(i));
        NowhereSame(p0, p1, dirs, window, i);
        RegionGrows(first, i, old(free));
        AddFrame(f, i);
        SameAlong(p0, p1, Ram(), dirs, {window});
        RegionSame(p0, p1, Ram(), tables, first, i);
        FrameBefore(i + 1, end);
        f := f + PAGE_SIZE;
        i := i + 1;
      }
      r := Return(());
    }

    /** One round of the loop: a frame is counted and freed. */
    method AddFrame(f: u32, ghost i: nat)
      requires Valid() && f == PAGE_SIZE * i && Unused(i)
      modifies this`freeFramePaddr, this`usedFrames, this`totalFrames, this`free, phys
      ensures Valid() && free == [i] + old(free) && usedFrames == old(usedFrames)
      ensures totalFrames == Add32(old(totalFrames), 1)
      ensures SameFrames(old(Ram()), Ram(), tables + {i})
      ensures SameDirectories(old(Ram()), Ram(), dirs) && SameEntries(old(Ram()), Ram(), dirs, {window})
    {
      hide Pdi, Pti, Present, Layout, FreeChain, EntryAt, Wrap32, Add32, Shared, SameEntries, SameDirectories,
        SameFrames, FreeUnmapped, MappedNowhere;
      CountBoth(usedFrames, totalFrames, |free|);
      totalFrames := Add32(totalFrames, 1);
      usedFrames := Add32(usedFrames, 1);
      FreeFrame(f);
    }

    // ---------- mapping ----------

    /** The loop that clears a new table through the self-map. */
    method InitPageTable(i: Index)
      requires |Ram()| == FRAMES && Dir() > 0 && SelfMapped(Ram(), Dir()) && Present(Ram()[Dir()][i])
      requires FrameOf(Ram()[Dir()][i]) != Dir()
      modifies phys
      ensures Ram() == old(Ram())[FrameOf(old(Ram())[Dir()][i]) := Zeros()]
    {
      hide FrameOf, Present, Pdi, Pti;
      ghost var p, t := Ram(), FrameOf(Ram()[Dir()][i]);
      var j := 0;
      while j < TABLE_SIZE
        invariant 0 <= j <= TABLE_SIZE && |Ram()| == FRAMES
        invariant forall f :: 0 <= f < FRAMES && f != t ==> Ram()[f] == p[f]
        invariant forall k :: 0 <= k < j ==> Ram()[t][k] == 0
      {
        WritePte(i, j, 0);
        j := j + 1;
      }
      assert Ram()[t] == Zeros();
    }

    /** The first half of `map_page`: a directory slot gets a table, unless it has one. */
    method EnsureTable(i: Index, flags: FlagBits) returns (r: Outcome<()>)
      requires Valid() && (i < 1023 || Present(Ram()[Dir()][i]))
      modifies this`freeFramePaddr, this`usedFrames, this`free, this`tables, phys
      ensures Valid()
      ensures r.Panic? <==> !Present(old(Ram())[Dir()][i]) && old(free) == []
      ensures r.Panic? || Present(old(Ram())[Dir()][i]) ==> unchanged(this) && unchanged(phys)
      ensures r.Return? && !Present(old(Ram())[Dir()][i]) ==>
        && free == old(free)[1..] && tables == old(tables) + {old(free)[0]} && usedFrames == Add32(old(usedFrames), 1)
        && OnlySlot(old(Ram()), Ram(), dirs, Dir(), i, SlotAfter(old(Ram())[Dir()][i], old(free), flags))
        && Ram()[Dir()][i] == TableWord(old(free)[0], flags)
        && SameEntries(old(Ram()), Ram(), dirs, {window}) && SameFrames(old(Ram()), Ram(), dirs + tables)
    {
      hide FrameOf, Address, Pdi, Pti, Present, CreateEntry, Layout, FreeChain, EntryAt, Poke, Wrap32, Add32, Shared,
        TableFlags, FreeUnmapped, MappedNowhere, WritableBit, UserBit;
      ghost var before := Ram();
      Inside();
      var pde := ReadPde(i);
      if !Present(pde) {
        var frame := AllocFrame();
        if frame.Panic? {
          return Panic;
        }
        ghost var p1, t := Ram(), FrameOf(frame.value);
        var e := CreateEntry(frame.value, TableFlags(flags));
        CreatedEntry(frame.value, TableFlags(flags));
        TableFlagBits(flags);
        SlotAfterBits(before[Dir()][i], old(free), flags);
        AddTable(p1, dirs, tables, free, Pdi(window), Dir(), i, e);
        WritePde(i, e);
        InitPageTable(i);
        TableKeepsChain(p1, Ram(), dirs, tables, free, Pdi(window), freeFramePaddr, t);
        FewerExceptions(p1, Ram(), dirs, {window});
        SameUnmapped(p1, Ram(), dirs, window, free, free);
        tables := tables + {t};
      }
      r := Return(());
    }

    /** Writes the entry of a page whose directory slot has a table. */
    method SetEntry(page: Page, entry: u32)
      requires Valid() && Pdi(page) < 1023 && page != window && Present(Ram()[Dir()][Pdi(page)])
      requires Present(entry) ==> FrameOf(entry) !in free
      modifies phys
      ensures Valid() && EntryAt(Ram(), Dir(), page) == entry && OnlyPages(old(Ram()), Ram(), dirs, Dir(), {page})
      ensures SameDirectories(old(Ram()), Ram(), dirs)
      ensures SameFrames(old(Ram()), Ram(), tables) && SameFrames(old(Ram()), Ram(), TablesOf(old(Ram()), Dir()))
    {
      hide FrameOf, Pdi, Pti, Present, Layout, FreeChain, EntryAt, Poke, Shared, TablesOf, FreeUnmapped, OnlyPages;
      ghost var before := Ram();
      Inside();
      WriteOnePage(before, dirs, tables, free, Pdi(window), Dir(), page, entry);
      WritePte(Pdi(page), Pti(page), entry);
      ChainKept(before, Ram(), dirs, tables, free, Pdi(window), freeFramePaddr);
      WriteKeepsUnmapped(before, Ram(), dirs, window, free, Dir(), page, entry);
      PageKept(before, Ram(), dirs, Dir(), page, window);
    }

    /** A page other than the window and the self-map, and a frame that is not free. */
    ghost predicate Mappable(page: Page, paddr: u32)
      reads this`free
    {
      Pdi(page) < 1023 && page != window && FrameOf(paddr) !in free
    }

    /** Maps a page to a frame, unless it is mapped already (result true). A missing table is
        created first. */
    method MapPage(page: Page, paddr: u32, flags: FlagBits) returns (r: Outcome<bool>)
      requires Valid() && (Present(EntryAt(Ram(), Dir(), page)) || Mappable(page, paddr))
      modifies this`freeFramePaddr, this`usedFrames, this`free, this`tables, phys
      ensures Valid()
      ensures var pde := old(Ram())[Dir()][Pdi(page)];
        r.Panic? <==> if Present(pde) then UserBit(flags) && !UserBit(pde) else old(free) == []
      ensures r.Return? ==> r.value == Present(EntryAt(old(Ram()), Dir(), page))
      ensures r != Return(false) ==> unchanged(this) && unchanged(phys)
      ensures r == Return(false) ==>
        var pde := old(Ram())[Dir()][Pdi(page)];
        && EntryAt(Ram(), Dir(), page) == CreateEntry(paddr, flags) == 4096 * (paddr / 4096) + 2 * (flags / 2) + 1
        && OnlyPages(old(Ram()), Ram(), dirs, Dir(), {page, window})
        && SameFrames(old(Ram()), Ram(), dirs + tables)
        && OnlySlot(old(Ram()), Ram(), dirs, Dir(), Pdi(page), SlotAfter(pde, old(free), flags))
        && (Present(pde) ==>
              && unchanged(this)
              && SameFrames(old(Ram()), Ram(), TablesOf(old(Ram()), Dir()))
              && OnlyPages(old(Ram()), Ram(), dirs, Dir(), {page}))
        && (!Present(pde) ==>
              && free == old(free)[1..] && tables == old(tables) + {old(free)[0]}
              && usedFrames == Add32(old(usedFrames), 1)
              && Ram()[Dir()][Pdi(page)] == TableWord(old(free)[0], flags))
    {
      hide FrameOf, Address, Pdi, Pti, Present, CreateEntry, Layout, FreeChain, Poke, Wrap32, Add32, Shared, TableFlags,
        UserBit, OnlyPages, SameEntries, SameFrames, TablesOf, OnlySlot, SameDirectories, EntryAt, SlotAfter,
        FreeUnmapped, SharesTable, TablesKnown, WritableBit, TableWord;
      ghost var p0, pde0 := Ram(), Ram()[Dir()][Pdi(page)];
      Inside();
      LastSlot(p0, Dir(), page);
      LayoutFree(p0, dirs, tables, free, Pdi(window));
      WindowShared(p0, dirs, tables, free, Pdi(window), Dir());
      TablesAreKnown(p0, dirs, tables, free, Pdi(window));
      if !Present(pde0) { NoTable(p0, Dir(), page); }
      var table := EnsureTable(Pdi(page), flags);
      if table.Panic? {
        return Panic;
      }
      Inside();
      ghost var p1, e1 := Ram(), SlotAfter(pde0, old(free), flags);
      SlotAfterBits(pde0, old(free), flags);
      if !Present(pde0) {
        SlotIs(p0, p1, dirs, Dir(), Pdi(page), e1);
        SameEntry(p0, p1, dirs, Dir(), page, window);
      }

      var pde := ReadPde(Pdi(page));
      if UserBit(flags) && !UserBit(pde) {
        return Panic;
      }
      CreatedEntry(paddr, flags);
      EntryNumber(paddr, flags);
      var pte := ReadPte(Pdi(page), Pti(page));
      EntryInTable(p1, Dir(), page);
      if Present(pte) {
        return Return(true);
      }
      SetEntry(page, CreateEntry(paddr, flags));
      if Present(pde0) {
        EntryOnly(p0, Ram(), dirs, tables, Dir(), page, window);
      } else {
        TableThenEntry(p0, p1, Ram(), dirs, old(tables), tables, Dir(), page, window, e1);
        SlotIs(p0, Ram(), dirs, Dir(), Pdi(page), e1);
      }
      r := Return(false);
    }

    /** Writes back a changed entry; the kernel asserts that the page is mapped. */
    method FlushEntry(page: Page, entry: u32)
      requires Valid() && Pdi(page) < 1023 && page != window && Present(EntryAt(Ram(), Dir(), page))
      requires Present(entry) ==> FrameOf(entry) !in free
      modifies phys
      ensures Valid() && EntryAt(Ram(), Dir(), page) == entry && OnlyPages(old(Ram()), Ram(), dirs, Dir(), {page})
      ensures SameDirectories(old(Ram()), Ram(), dirs)
      ensures SameFrames(old(Ram()), Ram(), tables) && SameFrames(old(Ram()), Ram(), TablesOf(old(Ram()), Dir()))
    {
      hide FrameOf, Pdi, Pti, Present, Layout, FreeChain, Poke, Shared, TablesOf, OnlyPages, FreeUnmapped;
      NotPresentZero();
      SetEntry(page, entry);
    }

    /** Unmaps a page and hands out its entry; result true if it was not mapped. */
    method UnmapPage(page: Page) returns (missing: bool, entry: u32)
      requires Valid() && (Present(EntryAt(Ram(), Dir(), page)) ==> Pdi(page) < 1023 && page != window)
      modifies phys
      ensures Valid() && missing == !Present(EntryAt(old(Ram()), Dir(), page))
      ensures missing ==> unchanged(phys)
      ensures !missing ==>
        && entry == EntryAt(old(Ram()), Dir(), page) && EntryAt(Ram(), Dir(), page) == 0
        && OnlyPages(old(Ram()), Ram(), dirs, Dir(), {page}) && SameDirectories(old(Ram()), Ram(), dirs)
        && SameFrames(old(Ram()), Ram(), tables) && SameFrames(old(Ram()), Ram(), TablesOf(old(Ram()), Dir()))
    {
      hide FrameOf, Pdi, Pti, Present, Layout, FreeChain, Poke, Shared, TablesOf, EntryAt, OnlyPages, FreeUnmapped;
      Inside();
      NotPresentZero();
      entry := GetEntry(page);
      if !Present(entry) {
        return true, 0;
      }
      FlushEntry(page, 0);
      missing := false;
    }

    /** Exchanges the frames of two mapped pages; both keep their flags. */
    method SwapPageFrames(page1: Page, page2: Page)
      requires Valid() && Pdi(page1) < 1023 && page1 != window && Pdi(page2) < 1023 && page2 != window
      requires Present(EntryAt(Ram(), Dir(), page1)) && Present(EntryAt(Ram(), Dir(), page2))
      modifies phys
      ensures Valid() && Swapped(old(Ram()), Ram(), dirs, Dir(), page1, page2)
    {
      hide FrameOf, Pdi, Pti, Present, Layout, FreeChain, Poke, Shared, TablesOf, EntryAt, OnlyPages, SameDirectories,
        SameFrames, FreeUnmapped;
      ghost var p0 := Ram();
      Inside();
      BehindPage(p0, dirs, window, free, Dir(), page1);
      BehindPage(p0, dirs, window, free, Dir(), page2);
      var entry1 := GetEntry(page1);
      var entry2 := GetEntry(page2);
      WithFrameOfParts(entry1, entry2);
      WithFrameOfParts(entry2, entry1);
      FlushEntry(page1, WithFrameOf(entry1, entry2));
      ghost var p1 := Ram();
      if page1 != page2 { PageKept(p0, p1, dirs, Dir(), page1, page2); }
      FlushEntry(page2, WithFrameOf(entry2, entry1));
      if page1 != page2 { PageKept(p1, Ram(), dirs, Dir(), page2, page1); }
      TwoWrites(p0, p1, Ram(), dirs, Dir(), {page1}, {page2});
      assert {page1} + {page2} == {page1, page2};
    }
  }

  /** `set_paddr(entry, get_paddr(other))` */
  function WithFrameOf(entry: u32, other: u32): u32 {
    SetPaddr(entry, Address(FrameOf(other)))
  }

  lemma WithFrameOfParts(entry: u32, other: u32)
    ensures var e := WithFrameOf(entry, other);
      FrameOf(e) == FrameOf(other) && Flags(e) == Flags(entry) && Present(e) == Present(entry)
    ensures entry == other ==> WithFrameOf(entry, other) == entry
  {
    SetPaddrParts(entry, FrameOf(other));
  }

  /** Two pages of space `d` have each other's frames and their own flags; nothing else changed. */
  ghost predicate Swapped(p: Phys, p': Phys, dirs: set<int>, d: int, page1: Page, page2: Page) {
    && |p| == |p'| == FRAMES && (forall d :: d in dirs ==> 0 < d < FRAMES) && d in dirs
    && EntryAt(p', d, page1) == WithFrameOf(EntryAt(p, d, page1), EntryAt(p, d, page2))
    && EntryAt(p', d, page2) == WithFrameOf(EntryAt(p, d, page2), EntryAt(p, d, page1))
    && OnlyPages(p, p', dirs, d, {page1, page2})
    && SameDirectories(p, p', dirs) && SameFrames(p, p', TablesOf(p, d))
  }

  /** Swapping twice gives memory back bit for bit. */
  lemma SwapUndoesSwap(p: Phys, p1: Phys, p2: Phys, dirs: set<int>, d: int, page1: Page, page2: Page)
    requires Swapped(p, p1, dirs, d, page1, page2) && Swapped(p1, p2, dirs, d, page1, page2)
    ensures p2 == p
  {
    hide EntryAt, Pdi, WithFrameOf, TablesOf, SameFrames, Shared;
    FramesSwapBack(EntryAt(p, d, page1), EntryAt(p, d, page2));
    forall q: Page | Pdi(q) < 1023 ensures EntryAt(p2, d, q) == EntryAt(p, d, q) {
    }
    SwapFrames(p, p1, p2, dirs, d, {page1, page2});
    EntriesDetermine(p, p2, d);
  }

  lemma SwapFrames(p: Phys, p1: Phys, p2: Phys, dirs: set<int>, d: int, pages: set<Page>)
    requires |p| == |p1| == |p2| == FRAMES && (forall d :: d in dirs ==> 0 < d < FRAMES) && d in dirs
    requires OnlyPages(p, p1, dirs, d, pages) && SameDirectories(p, p1, dirs) && SameFrames(p, p1, TablesOf(p, d))
    requires OnlyPages(p1, p2, dirs, d, pages) && SameDirectories(p1, p2, dirs) && SameFrames(p1, p2, TablesOf(p1, d))
    ensures p2[d] == p[d] && SameFrames(p, p2, TablesOf(p, d))
  {
    hide EntryAt, Pdi, OnlyPages, TablesOf, SameFrames;
    TwoWrites(p, p1, p2, dirs, d, pages, pages);
  }

  lemma FramesSwapBack(e1: u32, e2: u32)
    ensures var s1, s2 := WithFrameOf(e1, e2), WithFrameOf(e2, e1);
      WithFrameOf(s1, s2) == e1 && WithFrameOf(s2, s1) == e2
  {
    hide Flags, FrameOf, Present;
    SetPaddrParts(e1, FrameOf(e2));
    SetPaddrParts(e2, FrameOf(e1));
  }

  /** The frames [first, stop), the last one at the head. */
  ghost function Region(first: nat, stop: nat): seq<int>
    requires first <= stop
  {
    seq(stop - first, k => stop - 1 - k)
  }

  lemma RegionGrows(first: nat, i: nat, rest: seq<int>)
    requires first <= i && i !in rest
    ensures Region(first, i + 1) + rest == [i] + (Region(first, i) + rest)
    ensures i !in Region(first, i) + rest
  {
  }

  lemma RegionEmpty(first: nat, rest: seq<int>)
    ensures Region(first, first) + rest == rest
  {
  }

  ghost function RegionSet(first: nat, stop: nat): set<int> {
    set f: int | first <= f < stop && InRegion(f, first, stop)
  }

  ghost predicate InRegion(f: int, first: nat, stop: nat) {
    first <= f < stop
  }

  lemma RegionSame(p: Phys, p1: Phys, p2: Phys, tables: set<int>, first: nat, i: nat)
    requires SameFrames(p, p1, tables + RegionSet(first, i)) && SameFrames(p1, p2, tables + {i}) && first <= i
    ensures SameFrames(p, p2, tables + RegionSet(first, i + 1))
  {
  }
}
