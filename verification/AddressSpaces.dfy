/** The system calls on address spaces (src/memory/mem.c:589-782). */
module AddressSpaces {
  import opened Words
  import opened Entries
  import opened PageTables
  import opened Paging
  import opened PageRanges
  import opened MapLoops
  import opened Transfers

  const NO_ERROR: u32 := 0
  const MAP_PID_NOT_FOUND: u32 := 1
  const MAP_ALREADY_MAPPED: u32 := 2
  const MAP_INVALID_PTR: u32 := 3
  const MAP_INVALID_PADDR: u32 := 4
  const UNMAP_PID_NOT_FOUND: u32 := 1
  const UNMAP_NOT_MAPPED: u32 := 2
  const UNMAP_INVALID_PTR: u32 := 3
  const TRANSFER_PID_INVALID: u32 := 1
  const TRANSFER_VADDR_INVALID: u32 := 2
  const TRANSFER_TOO_LARGE: u32 := 3

  /** Entries that the temporary buffer of a transfer holds. */
  const TEMP_ENTRIES: u32 := 2048

  /** A range of physical memory for user programs. */
  datatype PhysicalRange = PhysicalRange(addr: u32, len: u32)

  function PageOf(vaddr: u32): Page {
    vaddr / PAGE_SIZE
  }

  /** Page `i` of the range, computed as the kernel does from the byte address. */
  lemma PageOfOffset(vaddr: u32, i: nat)
    requires PageOf(vaddr) + i < FRAMES
    ensures vaddr + i * PAGE_SIZE < TWO_TO_THE_32 && PageOf(vaddr + i * PAGE_SIZE) == PageOf(vaddr) + i
  {
  }

  /** Flags of user pages: the only flag of the system call asks for write access. */
  function PteFlags(flags: u32): FlagBits {
    if flags % 2 == 1 then USER_MODE + WRITABLE else USER_MODE
  }

  /** A frame belongs to the user if its address is in one of the ranges. */
  predicate UserFrame(ranges: seq<PhysicalRange>, paddr: u32) {
    exists i :: 0 <= i < |ranges| && InRange(ranges[i], paddr)
  }

  predicate InRange(range: PhysicalRange, paddr: u32) {
    range.addr <= paddr < Add32(range.addr, range.len)
  }

  /** What the checks of `syscall_virt_map` find first, from page `i` of the range on. */
  ghost function FirstMapError(p: Phys, d: int, page: nat, paddrs: seq<u32>, ranges: seq<PhysicalRange>, i: nat): u32
    requires |p| == FRAMES && 0 < d < FRAMES && page + |paddrs| <= TABLES_PAGE
    decreases |paddrs| - i
  {
    if i >= |paddrs| then NO_ERROR
    else if Present(EntryAt(p, d, page + i)) then MAP_ALREADY_MAPPED
    else if !UserFrame(ranges, paddrs[i]) then MAP_INVALID_PADDR
    else FirstMapError(p, d, page, paddrs, ranges, i + 1)
  }

  /** The checks pass exactly if no page is mapped and all frames are the user's. */
  lemma {:induction false} NoMapError(p: Phys, d: int, page: nat, paddrs: seq<u32>, ranges: seq<PhysicalRange>, i: nat)
    requires |p| == FRAMES && 0 < d < FRAMES && page + |paddrs| <= TABLES_PAGE && i <= |paddrs|
    ensures FirstMapError(p, d, page, paddrs, ranges, i) == NO_ERROR
      <==> Unmapped(p, d, page + i, |paddrs| - i) && forall k :: i <= k < |paddrs| ==> UserFrame(ranges, paddrs[k])
    decreases |paddrs| - i
  {
    hide EntryAt, Present, UserFrame;
    if i < |paddrs| {
      NoMapError(p, d, page, paddrs, ranges, i + 1);
      assert Unmapped(p, d, page + i, |paddrs| - i)
        <==> !Present(EntryAt(p, d, page + i)) && Unmapped(p, d, page + i + 1, |paddrs| - i - 1);
    }
  }

  // ---------- what the calls answer and do, in numbers ----------

  /** The address is in a range of user memory, whose end may wrap around. */
  ghost predicate InUserMemory(ranges: seq<PhysicalRange>, paddr: u32) {
    exists i :: 0 <= i < |ranges| && ranges[i].addr <= paddr < (ranges[i].addr + ranges[i].len) % 0x1_0000_0000
  }

  /** The pages from `i` to `k` are not mapped, and the frames for them are the user's. */
  ghost predicate InOrder(p: Phys, d: int, page: nat, paddrs: seq<u32>, ranges: seq<PhysicalRange>, i: nat, k: nat)
    requires |p| == FRAMES && 0 < d < FRAMES && page + |paddrs| <= TABLES_PAGE
  {
    forall q: Page :: page + i <= q < page + k && q < page + |paddrs| ==>
      EntryAt(p, d, q) % 2 == 0 && InUserMemory(ranges, paddrs[q - page])
  }

  /** Page `k` is the first one that is not in order, because it is mapped. */
  ghost predicate TakenAt(p: Phys, d: int, page: nat, paddrs: seq<u32>, ranges: seq<PhysicalRange>, i: nat, k: nat)
    requires |p| == FRAMES && 0 < d < FRAMES && page + |paddrs| <= TABLES_PAGE
  {
    i <= k < |paddrs| && InOrder(p, d, page, paddrs, ranges, i, k) && EntryAt(p, d, page + k) % 2 == 1
  }

  /** Page `k` is the first one that is not in order, because its frame is not the user's. */
  ghost predicate StrangeAt(p: Phys, d: int, page: nat, paddrs: seq<u32>, ranges: seq<PhysicalRange>, i: nat, k: nat)
    requires |p| == FRAMES && 0 < d < FRAMES && page + |paddrs| <= TABLES_PAGE
  {
    && i <= k < |paddrs| && InOrder(p, d, page, paddrs, ranges, i, k) && EntryAt(p, d, page + k) % 2 == 0
    && !InUserMemory(ranges, paddrs[k])
  }

  lemma RangeIs(ranges: seq<PhysicalRange>, paddr: u32)
    ensures UserFrame(ranges, paddr) <==> InUserMemory(ranges, paddr)
  {
    forall i | 0 <= i < |ranges|
      ensures InRange(ranges[i], paddr)
         <==> ranges[i].addr <= paddr < (ranges[i].addr + ranges[i].len) % 0x1_0000_0000
    {
    }
  }

  lemma {:induction false} FirstErrorIs(p: Phys, d: int, page: nat, paddrs: seq<u32>, ranges: seq<PhysicalRange>,
                                        i: nat)
    requires |p| == FRAMES && 0 < d < FRAMES && page + |paddrs| <= TABLES_PAGE && i <= |paddrs|
    ensures var e := FirstMapError(p, d, page, paddrs, ranges, i);
      && (e == 0 <==> InOrder(p, d, page, paddrs, ranges, i, |paddrs|))
      && (e == 2 <==> exists k: nat :: TakenAt(p, d, page, paddrs, ranges, i, k))
      && (e == 4 <==> exists k: nat :: StrangeAt(p, d, page, paddrs, ranges, i, k)) && (e == 0 || e == 2 || e == 4)
    decreases |paddrs| - i
  {
    hide EntryAt, UserFrame, InUserMemory;
    if i < |paddrs| {
      var next := i + 1;
      RangeIs(ranges, paddrs[i]);
      FirstErrorIs(p, d, page, paddrs, ranges, next);
      if EntryAt(p, d, page + i) % 2 == 1 {
        assert TakenAt(p, d, page, paddrs, ranges, i, i);
      } else if !InUserMemory(ranges, paddrs[i]) {
        assert StrangeAt(p, d, page, paddrs, ranges, i, i);
      } else {
        forall k: nat | true
          ensures TakenAt(p, d, page, paddrs, ranges, i, k) <==> TakenAt(p, d, page, paddrs, ranges, next, k)
          ensures StrangeAt(p, d, page, paddrs, ranges, i, k) <==> StrangeAt(p, d, page, paddrs, ranges, next, k)
        {
        }
      }
    }
  }

  /** A mapping call answers 2 if the first page that is not in order is mapped, 4 if its frame is not
      the user's, and otherwise 0, unless it panics. Then each page has the frame that was given for it,
      for users, to be written only if this was asked for. */
  ghost predicate MapOutcome(r: Outcome<u32>, p: Phys, p': Phys, d: int, page: nat, paddrs: seq<u32>,
                             ranges: seq<PhysicalRange>, writable: bool)
  {
    && |p| == |p'| == FRAMES && 0 < d < FRAMES && page + |paddrs| <= TABLES_PAGE
    && (r == Return(2) <==> exists k: nat :: TakenAt(p, d, page, paddrs, ranges, 0, k))
    && (r == Return(4) <==> exists k: nat :: StrangeAt(p, d, page, paddrs, ranges, 0, k))
    && (r.Panic? || r == Return(0) <==> InOrder(p, d, page, paddrs, ranges, 0, |paddrs|))
    && (r == Return(0) ==>
          forall q: Page :: page <= q < page + |paddrs| ==>
            EntryAt(p', d, q) == 4096 * (paddrs[q - page] / 4096) + if writable then 7 else 5)
  }

  lemma PteFlagBits(flags: u32)
    ensures PteFlags(flags) == if flags % 2 == 1 then 6 else 4
  {
  }

  lemma MapMeans(r: Outcome<u32>, p: Phys, p': Phys, dirs: set<int>, d: int, page: nat, paddrs: seq<u32>,
                 ranges: seq<PhysicalRange>, flags: u32, window: Page, free: seq<int>, tables: set<int>,
                 free': seq<int>, tables': set<int>)
    requires MapResult(r, p, p', dirs, d, page, paddrs, ranges, PteFlags(flags), window, free, tables, free', tables')
    ensures MapOutcome(r, p, p', d, page, paddrs, ranges, flags % 2 == 1)
  {
    hide EntryAt, UserFrame, CanMap, FramesTaken, OnlyPages, SlotsGrow, Missing, RangeWritten, SameFrames, CreateEntry,
      InOrder, TakenAt, StrangeAt, PteFlags, FirstMapError;
    FirstErrorIs(p, d, page, paddrs, ranges, 0);
    PteFlagBits(flags);
    if r == Return(0) {
      forall q: Page | page <= q < page + |paddrs|
        ensures EntryAt(p', d, q) == 4096 * (paddrs[q - page] / 4096) + if flags % 2 == 1 then 7 else 5
      {
        EntryNumber(paddrs[q - page], PteFlags(flags));
        assert EntryAt(p', d, page + (q - page)) == MadeEntries(paddrs, PteFlags(flags))[q - page];
      }
    }
  }

  /** An unmapping call answers 2 if a page is not mapped, and otherwise 0. Then it hands out the address
      of the frame of each page, and the pages have no entries. */
  ghost predicate UnmapOutcome(error: u32, p: Phys, p': Phys, d: int, page: nat, n: nat, paddrs: seq<u32>) {
    && |p| == |p'| == FRAMES && 0 < d < FRAMES && page + n <= TABLES_PAGE && |paddrs| == n
    && (error == 0 || error == 2)
    && (error == 2 <==> exists q: Page :: page <= q < page + n && EntryAt(p, d, q) % 2 == 0)
    && (error == 0 ==>
          forall q: Page :: page <= q < page + n ==>
            paddrs[q - page] == 4096 * (EntryAt(p, d, q) / 4096) && EntryAt(p', d, q) == 0)
  }

  lemma UnmapMeans(error: u32, p: Phys, p': Phys, dirs: set<int>, d: int, page: nat, n: nat, paddrs: seq<u32>)
    requires UnmapResult(error, p, p', dirs, d, page, n, paddrs) && |paddrs| == n
    ensures UnmapOutcome(error, p, p', d, page, n, paddrs)
  {
    hide EntryAt, OnlyPages, SameFrames, TablesOf, SameDirectories;
    if Mapped(p, d, page, n) {
      forall q: Page | page <= q < page + n
        ensures paddrs[q - page] == 4096 * (EntryAt(p, d, q) / 4096) && EntryAt(p', d, q) == 0
      {
        assert page + (q - page) == q;
        assert EntryAt(p', d, page + (q - page)) == Zeroed(n)[q - page];
        assert EntriesAt(p, d, page, n)[q - page] == EntryAt(p, d, q);
      }
    }
  }

  /** A transfer that is done answers 0, and each target page has the entry that its source page had; one
      that is not done answers 2, because a source page is not mapped or a target page is taken, and
      memory is as before. */
  ghost predicate TransferOutcome(r: Outcome<u32>, p: Phys, p': Phys, ds: int, dd: int, src: nat, dst: nat, n: nat,
                                  window: Page)
  {
    && |p| == |p'| == FRAMES && 0 < ds < FRAMES && 0 < dd < FRAMES && src + n <= TABLES_PAGE && dst + n <= TABLES_PAGE
    && (r.Return? ==> r == Return(0) || (r == Return(2) && p' == p))
    && (r == Return(0) ==>
          forall q: Page :: dst <= q < dst + n && q != window ==>
            EntryAt(p', dd, q) == EntryAt(p, ds, q - dst + src) && EntryAt(p', dd, q) % 2 == 1)
    && ((exists q: Page :: src <= q < src + n && EntryAt(p, ds, q) % 2 == 0) ==> r == Return(2))
  }

  lemma TransferMeans(r: Outcome<u32>, p: Phys, p': Phys, dirs: set<int>, ds: int, dd: int, src: nat, dst: nat, n: nat,
                      window: Page, free: seq<int>, tables: set<int>, free': seq<int>, tables': set<int>)
    requires TransferResult(r, p, p', dirs, ds, dd, src, dst, n, window, free, tables, free', tables')
    ensures TransferOutcome(r, p, p', ds, dd, src, dst, n, window)
  {
    hide EntryAt, SharesTable, Room, UserTables, CanMapEntries, SlotsStay, SameFrames, FramesTaken, Pdi;
    if r == Return(0) {
      forall q: Page | dst <= q < dst + n && q != window
        ensures EntryAt(p', dd, q) == EntryAt(p, ds, q - dst + src) && EntryAt(p', dd, q) % 2 == 1
      {
        SlotOrder(q, q);
        assert EntryAt(p', dd, q) == TransferredEntry(p, ds, dd, src, dst, n, dd, q);
        assert Present(EntryAt(p, ds, q - dst + src));
      }
    }
  }

  predicate UserReadable(entry: u32) {
    Present(entry) && UserBit(entry)
  }

  predicate UserWritable(entry: u32) {
    Present(entry) && UserBit(entry) && WritableBit(entry)
  }

  /** No frame of user memory is a free frame of the kernel. */
  ghost predicate UserApart(ranges: seq<PhysicalRange>, free: seq<int>) {
    forall paddr: u32 :: UserFrame(ranges, paddr) ==> FrameOf(paddr) !in free
  }

  lemma FewerFree(ranges: seq<PhysicalRange>, free: seq<int>, free': seq<int>)
    requires UserApart(ranges, free) && forall f :: f in free' ==> f in free
    ensures UserApart(ranges, free')
  {
    hide UserFrame, FrameOf;
  }

  lemma UserNotFree(ranges: seq<PhysicalRange>, free: seq<int>, paddrs: seq<u32>)
    requires UserApart(ranges, free) && forall k :: 0 <= k < |paddrs| ==> UserFrame(ranges, paddrs[k])
    ensures NoneFree(paddrs, free)
  {
    hide UserFrame, FrameOf;
  }

  lemma AccessBits(entry: u32)
    ensures UserReadable(entry) <==> entry % 2 == 1 && entry / 4 % 2 == 1
    ensures UserWritable(entry) <==> entry % 2 == 1 && entry / 2 % 2 == 1 && entry / 4 % 2 == 1
  {
  }

  lemma PageNumber(vaddr: u32)
    ensures PageOf(vaddr) == vaddr / 4096
  {
  }

  class Spaces {
    const memory: Memory
    /** The page directory of each process, by address-space identifier. */
    var pageDirs: map<u32, u32>
    /** The physical memory for user programs. */
    var userMap: seq<PhysicalRange>

    ghost predicate Valid()
      reads this, memory, memory.phys
    {
      && memory.Valid() && UserApart(userMap, memory.free)
      && forall aid :: aid in pageDirs ==> Directory(pageDirs[aid])
    }

    /** `n` pages from an address on end before the self-map and leave out the window. */
    ghost predicate Reachable(vaddr: u32, n: u32) {
      PageOf(vaddr) + n <= TABLES_PAGE && memory.window !in Pages(PageOf(vaddr), n)
    }

    ghost predicate Directory(paddr: u32)
      reads memory`dirs
    {
      paddr == Address(FrameOf(paddr)) && FrameOf(paddr) in memory.dirs
    }

    constructor (memory: Memory, ranges: seq<PhysicalRange>)
      requires memory.Valid() && UserApart(ranges, memory.free)
      ensures Valid() && this.memory == memory && userMap == ranges && pageDirs == map[]
    {
      this.memory := memory;
      userMap := ranges;
      pageDirs := map[];
    }

    /** A process gets its address space. */
    method AddProcess(aid: u16, paddr: u32)
      requires Valid() && Directory(paddr)
      modifies this`pageDirs
      ensures Valid() && pageDirs == old(pageDirs)[aid := paddr]
    {
      hide FrameOf, Address, Pdi, Shared, Layout, FreeChain, Wrap32, EntryAt, CreateEntry, FreeUnmapped, UserApart;
      pageDirs := pageDirs[aid := paddr];
    }

    predicate Known(aid: u32)
      reads this`pageDirs
    {
      aid / TWO_TO_THE_16 == 0 && aid in pageDirs
    }

    method UserFrameValid(paddr: u32) returns (valid: bool)
      ensures valid == UserFrame(userMap, paddr) == InUserMemory(userMap, paddr)
    {
      hide InUserMemory;
      RangeIs(userMap, paddr);
      var i := 0;
      while i < |userMap|
        invariant 0 <= i <= |userMap| && forall k :: 0 <= k < i ==> !InRange(userMap[k], paddr)
      {
        if InRange(userMap[i], paddr) {
          return true;
        }
        i := i + 1;
      }
      return false;
    }

    /** The first loop of `syscall_virt_map`. */
    method CheckMap(vaddr: u32, paddr: array<u32>, n: u32) returns (error: u32)
      requires memory.Valid() && Reachable(vaddr, n) && n <= paddr.Length
      ensures error == FirstMapError(memory.Ram(), memory.Dir(), PageOf(vaddr), paddr[..n], userMap, 0)
    {
      hide FrameOf, Pdi, Pti, Present, Layout, FreeChain, EntryAt, Shared, UserFrame, PageOf;
      memory.Inside();
      ghost var p, d, page, paddrs := memory.Ram(), memory.Dir(), PageOf(vaddr), paddr[..n];
      var i := 0;
      while i < n
        invariant 0 <= i <= n
        invariant FirstMapError(p, d, page, paddrs, userMap, i) == FirstMapError(p, d, page, paddrs, userMap, 0)
      {
        PageOfOffset(vaddr, i);
        var entry := memory.GetEntry(PageOf(vaddr + i * PAGE_SIZE));
        assert paddr[i] == paddrs[i];
        if Present(entry) {
          return MAP_ALREADY_MAPPED;
        }
        var valid := UserFrameValid(paddr[i]);
        if !valid {
          return MAP_INVALID_PADDR;
        }
        i := i + 1;
      }
      error := NO_ERROR;
    }

    /** `syscall_virt_map` from the change of the directory on. */
    method MapInto(directory: u32, vaddr: u32, paddr: array<u32>, n: u32, flags: u32) returns (r: Outcome<u32>)
      requires Valid() && Reachable(vaddr, n) && n <= paddr.Length && Directory(directory)
      modifies memory, memory.phys
      ensures r.Return? ==>
        Valid() && memory.currentPageDir == old(memory.currentPageDir) && memory.dirs == old(memory.dirs)
      ensures r.Return? && r.value != NO_ERROR ==> unchanged(memory) && unchanged(memory.phys)
      ensures MapResult(r, old(memory.Ram()), memory.Ram(), old(memory.dirs), FrameOf(directory), PageOf(vaddr),
        old(paddr[..n]), userMap, PteFlags(flags), memory.window, old(memory.free), old(memory.tables), memory.free,
        memory.tables)
    {
      hide FrameOf, Pdi, Pti, Present, Layout, FreeChain, EntryAt, Shared, UserFrame, PageOf, MappedSoFar, CanMap,
        Unmapped, Pages, Wrap32, FirstMapError, PteFlags, MadeEntries, Address, FreeUnmapped, UserApart, NoneFree;
      memory.Inside();
      ghost var p, paddrs := memory.Ram(), paddr[..n];
      var oldDir := memory.currentPageDir;
      memory.SetPageDir(directory);
      memory.Inside();
      var error := CheckMap(vaddr, paddr, n);
      if error != NO_ERROR {
        memory.SetPageDir(oldDir);
        return Return(error);
      }
      NoMapError(p, memory.Dir(), PageOf(vaddr), paddrs, userMap, 0);
      UserNotFree(userMap, memory.free, paddrs);
      ghost var free := memory.free;
      var ok := MapFrames(memory, PageOf(vaddr), paddr, n, PteFlags(flags));
      if ok.Panic? {
        return Panic;
      }
      memory.Inside();
      MappingTakes(p, memory.Ram(), memory.dirs, memory.Dir(), PageOf(vaddr), MadeEntries(paddrs, PteFlags(flags)), n,
        memory.window, free, old(memory.tables), memory.free, memory.tables);
      FewerFree(userMap, free, memory.free);
      memory.SetPageDir(oldDir);
      r := Return(NO_ERROR);
    }

    /** Maps a range of pages of a process to the given frames, all or none. The array is the
        caller's memory at `paddrPtr`. */
    method VirtMap(aid: u32, vaddr: u32, paddrPtr: u32, paddr: array<u32>, n: u32, flags: u32) returns (r: Outcome<u32>)
      requires Valid() && (Known(aid) ==> Reachable(vaddr, n) && n <= paddr.Length)
      modifies memory, memory.phys
      ensures r.Return? ==>
        Valid() && memory.currentPageDir == old(memory.currentPageDir) && memory.dirs == old(memory.dirs)
      ensures r.Return? && r.value != NO_ERROR ==> unchanged(memory) && unchanged(memory.phys)
      ensures var e := old(CallerEntry(paddrPtr));
        if !Known(aid) then r == Return(1)
        else if !(e % 2 == 1 && e / 4 % 2 == 1) then r == Return(3)
        else MapOutcome(r, old(memory.Ram()), memory.Ram(), FrameOf(pageDirs[aid]), vaddr / 4096, old(paddr[..n]),
          userMap, flags % 2 == 1)
      ensures Known(aid) && UserReadable(old(CallerEntry(paddrPtr))) ==>
        MapResult(r, old(memory.Ram()), memory.Ram(), old(memory.dirs), FrameOf(pageDirs[aid]), PageOf(vaddr),
          old(paddr[..n]), userMap, PteFlags(flags), memory.window, old(memory.free), old(memory.tables), memory.free,
          memory.tables)
    {
      hide FrameOf, Pdi, Pti, Present, Layout, FreeChain, EntryAt, Shared, PageOf, Wrap32, PteFlags, Address, MapResult,
        UserReadable, FreeUnmapped, UserApart, Reachable, MapOutcome;
      PageNumber(vaddr);
      PageNumber(paddrPtr);
      AccessBits(CallerEntry(paddrPtr));
      if !(aid / TWO_TO_THE_16 == 0 && aid in pageDirs) {
        return Return(MAP_PID_NOT_FOUND);
      }
      memory.Inside();
      var entry := memory.GetEntry(PageOf(paddrPtr));
      if !UserReadable(entry) {
        return Return(MAP_INVALID_PTR);
      }
      r := MapInto(pageDirs[aid], vaddr, paddr, n, flags);
      MapMeans(r, old(memory.Ram()), memory.Ram(), old(memory.dirs), FrameOf(pageDirs[aid]), PageOf(vaddr),
        old(paddr[..n]), userMap, flags, memory.window, old(memory.free), old(memory.tables), memory.free,
        memory.tables);
    }

    /** The page-table entry for an address in the current space. */
    ghost function CallerEntry(vaddr: u32): u32
      reads memory, memory.phys
    {
      if |memory.Ram()| == FRAMES then EntryAt(memory.Ram(), memory.Dir(), vaddr / 4096) else 0
    }

    /** The first loop of `syscall_virt_unmap` and of `syscall_virt_transfer`. */
    method CheckMapped(vaddr: u32, n: u32) returns (mapped: bool)
      requires memory.Valid() && Reachable(vaddr, n)
      ensures mapped <==> PageOf(vaddr) + n <= TABLES_PAGE && Mapped(memory.Ram(), memory.Dir(), PageOf(vaddr), n)
    {
      hide FrameOf, Pdi, Pti, Present, Layout, FreeChain, EntryAt, Shared, PageOf;
      memory.Inside();
      ghost var p, d, page := memory.Ram(), memory.Dir(), PageOf(vaddr);
      var i := 0;
      while i < n
        invariant 0 <= i <= n && Mapped(p, d, page, i)
      {
        PageOfOffset(vaddr, i);
        var entry := memory.GetEntry(PageOf(vaddr + i * PAGE_SIZE));
        if !Present(entry) {
          return false;
        }
        i := i + 1;
      }
      mapped := true;
    }

    /** `syscall_virt_unmap` from the change of the directory on. */
    method UnmapFrom(directory: u32, vaddr: u32, paddr: array<u32>, n: u32) returns (error: u32)
      requires Valid() && Reachable(vaddr, n) && n <= paddr.Length && Directory(directory)
      modifies memory, memory.phys, paddr
      ensures Valid() && memory.currentPageDir == old(memory.currentPageDir) && memory.dirs == old(memory.dirs)
      ensures error != NO_ERROR ==> unchanged(memory) && unchanged(memory.phys) && unchanged(paddr)
      ensures paddr[n..] == old(paddr[n..]) && memory.free == old(memory.free) && memory.tables == old(memory.tables)
      ensures UnmapResult(error, old(memory.Ram()), memory.Ram(), memory.dirs, FrameOf(directory), PageOf(vaddr), n,
        paddr[..n])
    {
      hide FrameOf, Pdi, Pti, Present, Layout, FreeChain, EntryAt, Shared, PageOf, Mapped, Pages, Wrap32, Address,
        RangeWritten, Paddrs, EntriesAt, Zeroed, FreeUnmapped, UserApart;
      memory.Inside();
      var oldDir := memory.currentPageDir;
      memory.SetPageDir(directory);
      memory.Inside();
      var mapped := CheckMapped(vaddr, n);
      if !mapped {
        memory.SetPageDir(oldDir);
        return UNMAP_NOT_MAPPED;
      }
      UnmapRange(memory, PageOf(vaddr), n, paddr, true);
      memory.SetPageDir(oldDir);
      memory.Inside();
      error := NO_ERROR;
    }

    /** Unmaps a range of pages of a process and hands out their frames, all or none. */
    method VirtUnmap(aid: u32, vaddr: u32, paddrPtr: u32, paddr: array<u32>, n: u32) returns (error: u32)
      requires Valid() && (Known(aid) ==> Reachable(vaddr, n) && n <= paddr.Length)
      modifies memory, memory.phys, paddr
      ensures Valid() && memory.currentPageDir == old(memory.currentPageDir) && memory.dirs == old(memory.dirs)
      ensures error != NO_ERROR ==> unchanged(memory) && unchanged(memory.phys) && unchanged(paddr)
      ensures n <= paddr.Length ==> paddr[n..] == old(paddr[n..])
      ensures memory.free == old(memory.free) && memory.tables == old(memory.tables)
      ensures var e := old(CallerEntry(paddrPtr));
        if !Known(aid) then error == 1
        else if !(e % 2 == 1 && e / 2 % 2 == 1 && e / 4 % 2 == 1) then error == 3
        else UnmapOutcome(error, old(memory.Ram()), memory.Ram(), FrameOf(pageDirs[aid]), vaddr / 4096, n, paddr[..n])
      ensures Known(aid) && UserWritable(old(CallerEntry(paddrPtr))) ==>
        UnmapResult(error, old(memory.Ram()), memory.Ram(), memory.dirs, FrameOf(pageDirs[aid]), PageOf(vaddr), n,
          paddr[..n])
    {
      hide FrameOf, Pdi, Pti, Present, Layout, FreeChain, EntryAt, Shared, PageOf, Wrap32, Address, UnmapResult,
        UserWritable, FreeUnmapped, UserApart, Reachable, UnmapOutcome;
      PageNumber(vaddr);
      PageNumber(paddrPtr);
      AccessBits(CallerEntry(paddrPtr));
      if !(aid / TWO_TO_THE_16 == 0 && aid in pageDirs) {
        return UNMAP_PID_NOT_FOUND;
      }
      memory.Inside();
      var entry := memory.GetEntry(PageOf(paddrPtr));
      if !UserWritable(entry) {
        return UNMAP_INVALID_PTR;
      }
      error := UnmapFrom(pageDirs[aid], vaddr, paddr, n);
      UnmapMeans(error, old(memory.Ram()), memory.Ram(), memory.dirs, FrameOf(pageDirs[aid]), PageOf(vaddr), n,
        paddr[..n]);
    }

    /** The third loop of `syscall_virt_transfer`. */
    method CheckUnmapped(vaddr: u32, n: u32) returns (clear: bool)
      requires memory.Valid() && Reachable(vaddr, n)
      ensures clear <==> PageOf(vaddr) + n <= TABLES_PAGE && Unmapped(memory.Ram(), memory.Dir(), PageOf(vaddr), n)
    {
      hide FrameOf, Pdi, Pti, Present, Layout, FreeChain, EntryAt, Shared, PageOf;
      memory.Inside();
      ghost var p, d, page := memory.Ram(), memory.Dir(), PageOf(vaddr);
      var i := 0;
      while i < n
        invariant 0 <= i <= n && Unmapped(p, d, page, i)
      {
        PageOfOffset(vaddr, i);
        var entry := memory.GetEntry(PageOf(vaddr + i * PAGE_SIZE));
        if Present(entry) {
          return false;
        }
        i := i + 1;
      }
      clear := true;
    }

    /** `syscall_virt_transfer` from the first change of the directory on. */
    method TransferBetween(source: u32, target: u32, vsrc: u32, vdst: u32, n: u32, temp: array<u32>)
      returns (r: Outcome<u32>)
      requires Valid() && Reachable(vsrc, n) && Reachable(vdst, n) && n <= temp.Length && Directory(source)
      requires Directory(target)
      modifies memory, memory.phys, temp
      ensures r.Return? ==>
        Valid() && memory.currentPageDir == old(memory.currentPageDir) && memory.dirs == old(memory.dirs)
      ensures r.Return? && r.value != NO_ERROR ==> unchanged(memory) && memory.Ram() == old(memory.Ram())
      ensures TransferResult(r, old(memory.Ram()), memory.Ram(), old(memory.dirs), FrameOf(source), FrameOf(target),
        PageOf(vsrc), PageOf(vdst), n, memory.window, old(memory.free), old(memory.tables), memory.free, memory.tables)
    {
      hide FrameOf, Pdi, Pti, Present, Layout, FreeChain, EntryAt, Shared, PageOf, Mapped, Pages, Wrap32, Address,
        RangeWritten, EntriesAt, Zeroed, Unmapped, CanMapEntries, Missing, AllPresent, NoneFree, UserTables, Room,
        Transferred, FramesTaken, RangeMapped, SameDirectories, SameFrames, FreeUnmapped, UserApart, MappedSoFar,
        SlotsStay;
      memory.Inside();
      ghost var p, src, dst := memory.Ram(), PageOf(vsrc), PageOf(vdst);
      ghost var ds, dd, es := FrameOf(source), FrameOf(target), EntriesAt(p, FrameOf(source), src, n);
      var oldDir := memory.currentPageDir;
      memory.SetPageDir(source);
      var mapped := CheckMapped(vsrc, n);
      if !mapped {
        memory.SetPageDir(oldDir);
        return Return(TRANSFER_VADDR_INVALID);
      }
      SavedPresent(p, ds, src, n);
      SavedNotFree(p, memory.dirs, memory.window, memory.free, ds, src, n);
      UnmapRange(memory, PageOf(vsrc), n, temp, false);
      ghost var p1 := memory.Ram();
      RoomIsUnmapped(p, p1, memory.dirs, ds, dd, src, dst, n);
      WrittenDirectories(p, p1, memory.dirs, ds, dd, src, n);
      UndoSucceeds(p, p1, ds, src, n, |memory.free|);
      SameDirectoryMaps(p, p1, dd, dst, es, |memory.free|);
      memory.SetPageDir(target);
      var vfinal, error := vdst, NO_ERROR;
      var clear := CheckUnmapped(vdst, n);
      if !clear {
        error := TRANSFER_VADDR_INVALID;
        vfinal := vsrc;
        memory.SetPageDir(source);
      }
      var ok := MapEntries(memory, PageOf(vfinal), temp, n);
      if ok.Panic? {
        return Panic;
      }
      memory.Inside();
      MappingTakes(p1, memory.Ram(), memory.dirs, memory.Dir(), PageOf(vfinal), es, n, memory.window,
        old(memory.free), old(memory.tables), memory.free, memory.tables);
      FewerFree(userMap, old(memory.free), memory.free);
      memory.SetPageDir(oldDir);
      r := Return(error);
      if error == NO_ERROR {
        TransferCompletes(p, p1, memory.Ram(), memory.dirs, ds, dd, src, dst, n, memory.window);
        TransferSlots(p, p1, memory.Ram(), memory.dirs, dd, dst, es, memory.window);
        TransferFrames(p, p1, memory.Ram(), memory.dirs, old(memory.tables), old(memory.free), Pdi(memory.window), ds,
          memory.tables, memory.free);
      } else {
        UndoRestores(p, p1, memory.Ram(), memory.dirs, ds, src, n);
      }
    }

    predicate BothKnown(aidPair: u32)
      reads this`pageDirs
    {
      aidPair % TWO_TO_THE_16 in pageDirs && aidPair / TWO_TO_THE_16 in pageDirs
    }

    /** Moves a range of pages from one process to another, all or none; the two may be the same. */
    method VirtTransfer(vsrc: u32, vdst: u32, aidPair: u32, n: u32, temp: array<u32>) returns (r: Outcome<u32>)
      requires Valid() && temp.Length == TEMP_ENTRIES
      requires n <= TEMP_ENTRIES && BothKnown(aidPair) ==> Reachable(vsrc, n) && Reachable(vdst, n)
      modifies memory, memory.phys, temp
      ensures r.Return? ==>
        Valid() && memory.currentPageDir == old(memory.currentPageDir) && memory.dirs == old(memory.dirs)
      ensures r.Return? && r.value != NO_ERROR ==> unchanged(memory) && memory.Ram() == old(memory.Ram())
      ensures var source, target := aidPair % TWO_TO_THE_16, aidPair / TWO_TO_THE_16;
        if n > 2048 then r == Return(3) && unchanged(memory.phys)
        else if !BothKnown(aidPair) then r == Return(1) && unchanged(memory.phys)
        else
          && TransferOutcome(r, old(memory.Ram()), memory.Ram(), FrameOf(pageDirs[source]), FrameOf(pageDirs[target]),
               vsrc / 4096, vdst / 4096, n, memory.window)
          && TransferResult(r, old(memory.Ram()), memory.Ram(), old(memory.dirs), FrameOf(pageDirs[source]),
               FrameOf(pageDirs[target]), PageOf(vsrc), PageOf(vdst), n, memory.window, old(memory.free),
               old(memory.tables), memory.free, memory.tables)
    {
      hide FrameOf, Pdi, Pti, Present, Layout, FreeChain, EntryAt, Shared, PageOf, Wrap32, Address, TransferResult,
        FreeUnmapped, UserApart, Reachable, TransferOutcome;
      PageNumber(vsrc);
      PageNumber(vdst);
      if n > TEMP_ENTRIES {
        return Return(TRANSFER_TOO_LARGE);
      }
      var aidSrc := aidPair % TWO_TO_THE_16;
      var aidDst := aidPair / TWO_TO_THE_16 % TWO_TO_THE_16;
      if !(aidSrc in pageDirs) || !(aidDst in pageDirs) {
        return Return(TRANSFER_PID_INVALID);
      }
      r := TransferBetween(pageDirs[aidSrc], pageDirs[aidDst], vsrc, vdst, n, temp);
      TransferMeans(r, old(memory.Ram()), memory.Ram(), old(memory.dirs), FrameOf(pageDirs[aidSrc]),
        FrameOf(pageDirs[aidDst]), PageOf(vsrc), PageOf(vdst), n, memory.window, old(memory.free), old(memory.tables),
        memory.free, memory.tables);
    }
  }

  /** What a mapping call does: the first error found, and no change; or else all pages are mapped,
      unless the frames for tables run out or a kernel table is in the way. */
  ghost predicate MapResult(r: Outcome<u32>, p: Phys, p': Phys, dirs: set<int>, d: int, page: nat, paddrs: seq<u32>,
                            ranges: seq<PhysicalRange>, flags: FlagBits, window: Page, free: seq<int>, tables: set<int>,
                            free': seq<int>, tables': set<int>)
  {
    && |p| == |p'| == FRAMES && (forall d :: d in dirs ==> 0 < d < FRAMES) && d in dirs
    && page + |paddrs| <= TABLES_PAGE
    && var error := FirstMapError(p, d, page, paddrs, ranges, 0);
       if error != NO_ERROR then r == Return(error) && p' == p
       else
         && (r.Panic? <==> !CanMap(p, d, page, |paddrs|, flags, |free|))
         && (r.Return? ==>
               r.value == NO_ERROR
               && MappedSoFar(p, p', dirs, d, page, MadeEntries(paddrs, flags), |paddrs|, window, free, tables, free',
                    tables'))
  }

  /** What an unmapping call does: if all pages are mapped, their entries become zero and their
      frames are handed out; otherwise nothing changes. */
  ghost predicate UnmapResult(error: u32, p: Phys, p': Phys, dirs: set<int>, d: int, page: nat, n: nat,
                              paddrs: seq<u32>) {
    && |p| == |p'| == FRAMES && (forall d :: d in dirs ==> 0 < d < FRAMES) && d in dirs && page + n <= TABLES_PAGE
    && if !Mapped(p, d, page, n) then error == UNMAP_NOT_MAPPED && p' == p
       else
         && error == NO_ERROR && paddrs == Paddrs(EntriesAt(p, d, page, n))
         && RangeWritten(p, p', dirs, d, page, Zeroed(n))
  }

  /** What a mapping loop leaves of the free frames, and what it changes. */
  lemma MappingTakes(p: Phys, p': Phys, dirs: set<int>, d: int, page: nat, entries: seq<u32>, n: nat, window: Page,
                     free: seq<int>, tables: set<int>, free': seq<int>, tables': set<int>)
    requires |p| == |p'| == FRAMES && (forall d :: d in dirs ==> 0 < d < FRAMES) && d in dirs && n == |entries|
    requires page + n <= TABLES_PAGE
    requires MappedSoFar(p, p', dirs, d, page, entries, n, window, free, tables, free', tables')
    ensures RangeMapped(p, p', dirs, d, page, entries, window) && SameFrames(p, p', dirs + tables')
    ensures FramesTaken(free, tables, free', tables', []) && forall f :: f in free' ==> f in free
    ensures Missing(p, d, page, n) == {} ==> RangeWritten(p, p', dirs, d, page, entries)
  {
    hide RangeMapped, RangeWritten, Missing, SameFrames;
  }

  lemma WrittenDirectories(p: Phys, p': Phys, dirs: set<int>, d: int, d': int, page: nat, n: nat)
    requires |p| == |p'| == FRAMES && (forall d :: d in dirs ==> 0 < d < FRAMES) && d in dirs && d' in dirs
    requires page + n <= TABLES_PAGE
    requires RangeWritten(p, p', dirs, d, page, Zeroed(n))
    ensures p'[d] == p[d] && p'[d'] == p[d'] && SameDirectories(p, p', dirs)
    ensures SameFrames(p, p', TablesOf(p, d))
  {
  }

  /** Page contents are not touched by a transfer. */
  lemma TransferFrames(p: Phys, p1: Phys, p2: Phys, dirs: set<int>, tables: set<int>, free: seq<int>, wi: Index, d: int,
                       tables': set<int>, free': seq<int>)
    requires Layout(p, dirs, tables, free, wi) && d in dirs && |p1| == |p2| == FRAMES
    requires (forall d :: d in dirs ==> 0 < d < FRAMES)
    requires SameFrames(p, p1, TablesOf(p, d)) && SameFrames(p1, p2, dirs + tables')
    requires FramesTaken(free, tables, free', tables', [])
    ensures SameFrames(p, p2, dirs + tables')
  {
    hide FrameOf, Present, Shared, TablesApart;
    assert TablesOf(p, d) <= tables;
  }

  lemma TransferSlots(p: Phys, p1: Phys, p2: Phys, dirs: set<int>, d: int, page: nat, entries: seq<u32>, window: Page)
    requires |p| == |p1| == |p2| == FRAMES && (forall d :: d in dirs ==> 0 < d < FRAMES) && d in dirs
    requires page + |entries| <= TABLES_PAGE
    requires SameDirectories(p, p1, dirs) && RangeMapped(p1, p2, dirs, d, page, entries, window)
    ensures SlotsStay(p, p2, dirs)
  {
    hide EntryAt, Present, SlotsGrow, SharesTable, Pdi, Shared;
  }

  /** What a transfer does: if a source page is not mapped or a target page is taken, memory is bit
      for bit as before; otherwise the entries move. It panics exactly if they cannot be mapped there,
      for lack of frames for tables or of user tables. */
  ghost predicate TransferResult(r: Outcome<u32>, p: Phys, p': Phys, dirs: set<int>, ds: int, dd: int, src: nat,
                                 dst: nat, n: nat, window: Page, free: seq<int>, tables: set<int>, free': seq<int>,
                                 tables': set<int>)
  {
    && |p| == |p'| == FRAMES && (forall d :: d in dirs ==> 0 < d < FRAMES) && ds in dirs && dd in dirs
    && src + n <= TABLES_PAGE && dst + n <= TABLES_PAGE
    && if !Mapped(p, ds, src, n) then r == Return(TRANSFER_VADDR_INVALID) && p' == p
       else if !Room(p, ds, dd, src, dst, n) then
         && (r.Return? <==> UserTables(p, ds, src, n))
         && (r.Return? ==> r.value == TRANSFER_VADDR_INVALID && p' == p)
       else
         && (r.Return? <==> CanMapEntries(p, dd, dst, EntriesAt(p, ds, src, n), |free|))
         && (r.Return? ==>
               && r.value == NO_ERROR && Transferred(p, p', dirs, ds, dd, src, dst, n, window)
               && SlotsStay(p, p', dirs) && SameFrames(p, p', dirs + tables')
               && FramesTaken(free, tables, free', tables', []))
  }

  /** The same pages are mapped in all spaces, with the same entries. */
  ghost predicate SameMappings(p: Phys, p': Phys, dirs: set<int>, window: Page)
    requires |p| == |p'| == FRAMES && (forall d :: d in dirs ==> 0 < d < FRAMES)
  {
    forall d, q: Page :: d in dirs && Pdi(q) < 1023 && q != window ==>
      EntryAt(p', d, q) == EntryAt(p, d, q) || (!Present(EntryAt(p', d, q)) && !Present(EntryAt(p, d, q)))
  }

  /** Unmapping a range that was just mapped succeeds, returns the frames it was mapped to, and
      restores the mappings of all spaces. */
  lemma UnmapAfterMap(r: Outcome<u32>, error: u32, p: Phys, p1: Phys, p2: Phys, dirs: set<int>, d: int, page: nat,
                      paddrs: seq<u32>, ranges: seq<PhysicalRange>, flags: FlagBits, window: Page, free: seq<int>,
                      tables: set<int>, free1: seq<int>, tables1: set<int>, returned: seq<u32>)
    requires page + |paddrs| <= TABLES_PAGE && window !in Pages(page, |paddrs|)
    requires forall k :: 0 <= k < |paddrs| ==> paddrs[k] == Address(FrameOf(paddrs[k]))
    requires r == Return(NO_ERROR)
    requires MapResult(r, p, p1, dirs, d, page, paddrs, ranges, flags, window, free, tables, free1, tables1)
    requires UnmapResult(error, p1, p2, dirs, d, page, |paddrs|, returned)
    ensures error == NO_ERROR && returned == paddrs
    ensures |p| == |p2| == FRAMES && (forall d :: d in dirs ==> 0 < d < FRAMES) && SameMappings(p, p2, dirs, window)
  {
    hide EntryAt, Pdi, Present, FrameOf, Address, CreateEntry, RangeMapped, RangeWritten, CanMap, UserFrame, Shared,
      FramesTaken, SharesTable;
    var n, entries := |paddrs|, MadeEntries(paddrs, flags);
    NotPresentZero();
    NoMapError(p, d, page, paddrs, ranges, 0);
    forall q: Page | page <= q < page + n
      ensures EntryAt(p1, d, q) == CreateEntry(paddrs[q - page], flags) && Present(EntryAt(p1, d, q))
      ensures FrameOf(EntryAt(p1, d, q)) == FrameOf(paddrs[q - page])
    {
      SlotOrder(q, q);
      assert q in Pages(page, n);
      AfterMap(p, p1, dirs, d, page, entries, window, d, q);
      CreatedEntry(paddrs[q - page], flags);
    }
    assert Mapped(p1, d, page, n);
    HandedBack(p1, d, page, paddrs);
    forall d', q: Page | d' in dirs && Pdi(q) < 1023 && q != window
      ensures EntryAt(p2, d', q) == EntryAt(p, d', q) || (!Present(EntryAt(p2, d', q)) && !Present(EntryAt(p, d', q)))
    {
      AfterMap(p, p1, dirs, d, page, entries, window, d', q);
      AfterWrite(p1, p2, dirs, d, page, Zeroed(n), d', q);
      ReachBack(p, p1, dirs, d, page, entries, window, d', q);
    }
  }

  /** Pages that are mapped to given frames hand these out. */
  lemma HandedBack(p: Phys, d: int, page: nat, paddrs: seq<u32>)
    requires |p| == FRAMES && 0 < d < FRAMES && page + |paddrs| <= TABLES_PAGE
    requires forall k :: 0 <= k < |paddrs| ==> paddrs[k] == Address(FrameOf(paddrs[k]))
    requires forall q: Page :: page <= q < page + |paddrs| ==> FrameOf(EntryAt(p, d, q)) == FrameOf(paddrs[q - page])
    ensures Paddrs(EntriesAt(p, d, page, |paddrs|)) == paddrs
  {
    hide EntryAt, FrameOf, Address;
    forall k | 0 <= k < |paddrs| ensures Paddrs(EntriesAt(p, d, page, |paddrs|))[k] == paddrs[k] {
      var q: Page := page + k;
      assert q - page == k;
    }
  }

  /** Where a space is reached, it had the same entry. */
  lemma ReachBack(p: Phys, p1: Phys, dirs: set<int>, d: int, page: nat, entries: seq<u32>, window: Page, d': int,
                  q: Page)
    requires |p| == |p1| == FRAMES && (forall d :: d in dirs ==> 0 < d < FRAMES) && d in dirs && d' in dirs
    requires Pdi(q) < 1023
    requires page + |entries| <= TABLES_PAGE && RangeMapped(p, p1, dirs, d, page, entries, window)
    ensures Reaches(p, d, d', q) <==> Reaches(p1, d, d', q)
    ensures Reaches(p, d, d', q) ==> EntryAt(p, d', q) == EntryAt(p, d, q)
  {
    hide EntryAt, Pdi, SharesTable, SlotsGrow, Shared;
    TablesStay(p, p1, dirs, d, Pages(page, |entries|) + {window});
    if d' != d && SharesTable(p, d, d', Pdi(q)) {
      SharesKept(p, p1, dirs, d, d', Pdi(q));
      SharedEntry(p, d, d', q);
    }
  }
}
