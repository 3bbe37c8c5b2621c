/** Page-table entries and page numbers (src/memory/mem.c): bit fields of 32-bit words. */
module Entries {
  import opened Words

  const PAGE_SIZE: int := 4096
  const FRAMES: int := 0x10_0000
  const TABLE_SIZE: int := 1024

  const WRITABLE: int := 2
  const USER_MODE: int := 4

  /** A virtual page number; the address of the page is 4096 times as much. */
  type Page = p: int | 0 <= p < 0x10_0000
  type Index = i: int | 0 <= i < 1024
  type FlagBits = f: int | 0 <= f < 4096

  function Pdi(page: Page): Index {
    page / 1024
  }

  function Pti(page: Page): Index {
    page % 1024
  }

  function PageAt(pdi: Index, pti: Index): Page {
    pdi * 1024 + pti
  }

  lemma PageParts(page: Page)
    ensures PageAt(Pdi(page), Pti(page)) == page
  {
  }

  lemma PartsPage(i: Index, j: Index)
    ensures Pdi(PageAt(i, j)) == i && Pti(PageAt(i, j)) == j
  {
  }

  /** The frame number in an entry or a physical address: all but the low 12 bits. */
  function FrameOf(entry: u32): (f: int)
    ensures 0 <= f < FRAMES
  {
    entry / PAGE_SIZE
  }

  function Address(frame: int): u32
    requires 0 <= frame < FRAMES
  {
    frame * PAGE_SIZE
  }

  function Flags(entry: u32): FlagBits {
    entry % PAGE_SIZE
  }

  predicate Present(entry: u32) {
    entry % 2 == 1
  }

  predicate WritableBit(x: u32) {
    x / 2 % 2 == 1
  }

  predicate UserBit(x: u32) {
    x / 4 % 2 == 1
  }

  /** `(paddr & ~0xFFF) | flags | 1` */
  function CreateEntry(paddr: u32, flags: FlagBits): u32 {
    Address(FrameOf(paddr)) + flags + (if flags % 2 == 0 then 1 else 0)
  }

  /** Whole frames do not show in the low bits. */
  lemma LowBits(f: nat, l: FlagBits)
    ensures var e := PAGE_SIZE * f + l;
      && e / PAGE_SIZE == f && e % PAGE_SIZE == l && e % 2 == l % 2 && e / 2 % 2 == l / 2 % 2
      && e / 4 % 2 == l / 4 % 2
  {
    LowPart(f, l);
    EvenAdded(2048 * f, l);
    HalvesAdded(2048 * f, l);
    EvenAdded(1024 * f, l / 2);
    QuartersAdded(1024 * f, l);
    EvenAdded(512 * f, l / 4);
  }

  lemma LowPart(f: nat, l: FlagBits)
    ensures (PAGE_SIZE * f + l) / PAGE_SIZE == f && (PAGE_SIZE * f + l) % PAGE_SIZE == l
  {
  }

  lemma EvenAdded(k: nat, l: nat)
    ensures (2 * k + l) % 2 == l % 2
  {
  }

  lemma HalvesAdded(k: nat, l: nat)
    ensures (2 * k + l) / 2 == k + l / 2
  {
  }

  lemma QuartersAdded(k: nat, l: nat)
    ensures (4 * k + l) / 4 == k + l / 4
  {
  }

  lemma CreatedEntry(paddr: u32, flags: FlagBits)
    ensures var e := CreateEntry(paddr, flags);
      && Present(e) && FrameOf(e) == FrameOf(paddr)
      && Flags(e) == (if flags % 2 == 0 then flags + 1 else flags)
      && UserBit(e) == UserBit(flags) && WritableBit(e) == WritableBit(flags)
  {
    hide FrameOf;
    PresentFlag(flags);
    LowBits(FrameOf(paddr), if flags % 2 == 0 then flags + 1 else flags);
    FrameIs(CreateEntry(paddr, flags));
  }

  /** The number that an entry is: the address of its frame, the flags, and the lowest bit. */
  lemma EntryNumber(paddr: u32, flags: FlagBits)
    ensures CreateEntry(paddr, flags) == 4096 * (paddr / 4096) + 2 * (flags / 2) + 1
  {
    HalvesAdded(flags / 2, flags % 2);
  }

  lemma FrameIs(e: u32)
    ensures FrameOf(e) == e / PAGE_SIZE
  {
  }

  lemma PresentFlag(flags: FlagBits)
    ensures flags % 2 == 0 ==>
      flags + 1 < 4096 && (flags + 1) % 2 == 1 && (flags + 1) / 4 == flags / 4 && (flags + 1) / 2 == flags / 2
  {
    HalvesAdded(flags / 2, flags % 2);
    HalvesAdded(flags / 2, flags % 2 + 1);
    var q, r := flags / 4, flags % 4;
    assert flags == 4 * q + r;
    QuartersAdded(q, r);
    QuartersAdded(q, r + 1);
    EvenAdded(2 * q, r);
  }

  /** Taking a present entry apart and putting it together again. */
  lemma EntryRoundTrip(e: u32)
    ensures Present(e) ==> CreateEntry(Address(FrameOf(e)), Flags(e)) == e
    ensures FrameOf(Address(FrameOf(e))) == FrameOf(e)
    ensures UserBit(Flags(e)) == UserBit(e) && Present(Flags(e)) == Present(e)
  {
    LowBits(FrameOf(e), Flags(e));
    LowBits(FrameOf(e), 0);
    assert e == PAGE_SIZE * FrameOf(e) + Flags(e);
  }

  /** `set_paddr`: other frame, same flags. */
  function SetPaddr(entry: u32, paddr: u32): u32
    requires paddr % PAGE_SIZE == 0
  {
    Flags(entry) + paddr
  }

  lemma SetPaddrParts(entry: u32, frame: int)
    requires 0 <= frame < FRAMES
    ensures Address(frame) % PAGE_SIZE == 0
    ensures var e := SetPaddr(entry, Address(frame));
      FrameOf(e) == frame && Flags(e) == Flags(entry) && Present(e) == Present(entry)
    ensures SetPaddr(SetPaddr(entry, Address(frame)), Address(FrameOf(entry))) == entry
  {
    LowBits(frame, Flags(entry));
    LowBits(FrameOf(entry), Flags(entry));
    assert entry == PAGE_SIZE * FrameOf(entry) + Flags(entry);
  }

  /** The user-mode bit of the directory entry of a new table. */
  function TableFlags(flags: FlagBits): FlagBits {
    WRITABLE + if UserBit(flags) then USER_MODE else 0
  }

  lemma TableFlagBits(flags: FlagBits)
    ensures UserBit(TableFlags(flags)) == UserBit(flags) && WritableBit(TableFlags(flags))
    ensures TableFlags(flags) == if flags / 4 % 2 == 1 then 6 else 2
  {
  }

  /** The entry for a table: its frame, present and writable, and for user pages if these are asked for. */
  lemma TableEntry(frame: int, flags: FlagBits)
    requires 0 <= frame < FRAMES
    ensures CreateEntry(Address(frame), TableFlags(flags)) == 4096 * frame + if flags / 4 % 2 == 1 then 7 else 3
  {
    hide FrameOf;
    TableFlagBits(flags);
    FrameIs(Address(frame));
    LowPart(frame, 0);
  }

  function AlignNextFrame(paddr: u32): u32 {
    Add32(paddr, PAGE_SIZE) / PAGE_SIZE * PAGE_SIZE
  }

  /** The number of the first frame that starts at or behind an address. */
  function FrameCeiling(paddr: u32): nat {
    (paddr + PAGE_SIZE - 1) / PAGE_SIZE
  }

  lemma AlignedStart(start: u32)
    requires 0 < start <= TWO_TO_THE_32 - PAGE_SIZE
    ensures 0 < FrameCeiling(start) < FRAMES
    ensures AlignNextFrame(Add32(start, -1)) == Address(FrameCeiling(start))
  {
  }

  /** A frame starts before an address exactly if its number is below the ceiling. */
  lemma FrameBefore(frame: nat, end: u32)
    ensures PAGE_SIZE * frame < end <==> frame < FrameCeiling(end)
  {
  }

  lemma CeilingGrows(start: u32, end: u32)
    requires start <= end
    ensures FrameCeiling(start) <= FrameCeiling(end)
  {
  }
}
