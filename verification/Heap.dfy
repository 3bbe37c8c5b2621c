/** The page allocator (src/memory/heap.c): two bits per page, packed four pages to a byte. */
module Heaps {
  import opened Words
  import opened HeapRuns

  datatype Byte = Byte(bits: bv8)

  /** A pair of bits as a number, and back. */
  function FromBits(x: bv8): Usage {
    if x == 1 then 1 else if x == 2 then 2 else if x == 3 then 3 else 0
  }

  function ToBits(u: Usage): bv8 {
    if u == 1 then 1 else if u == 2 then 2 else if u == 3 then 3 else 0
  }

  function BitsAt(b: bv8, p: nat): bv8
    requires p <= 6
  {
    (b >> p) & 3
  }

  function WithBits(b: bv8, p: nat, x: bv8): bv8
    requires p <= 6
  {
    (b & !((3 as bv8) << p)) | (x << p)
  }

  lemma BitsIndependent6(b: bv8, x: bv8)
    requires x <= 3
    ensures var c := WithBits(b, 6, x);
      BitsAt(c, 6) == x && BitsAt(c, 4) == BitsAt(b, 4) && BitsAt(c, 2) == BitsAt(b, 2) && BitsAt(c, 0) == BitsAt(b, 0)
  {
  }

  lemma BitsIndependent4(b: bv8, x: bv8)
    requires x <= 3
    ensures var c := WithBits(b, 4, x);
      BitsAt(c, 6) == BitsAt(b, 6) && BitsAt(c, 4) == x && BitsAt(c, 2) == BitsAt(b, 2) && BitsAt(c, 0) == BitsAt(b, 0)
  {
  }

  lemma BitsIndependent2(b: bv8, x: bv8)
    requires x <= 3
    ensures var c := WithBits(b, 2, x);
      BitsAt(c, 6) == BitsAt(b, 6) && BitsAt(c, 4) == BitsAt(b, 4) && BitsAt(c, 2) == x && BitsAt(c, 0) == BitsAt(b, 0)
  {
  }

  lemma BitsIndependent0(b: bv8, x: bv8)
    requires x <= 3
    ensures var c := WithBits(b, 0, x);
      BitsAt(c, 6) == BitsAt(b, 6) && BitsAt(c, 4) == BitsAt(b, 4) && BitsAt(c, 2) == BitsAt(b, 2) && BitsAt(c, 0) == x
  {
  }

  lemma BitsIndependent(b: bv8, p: nat, q: nat, x: bv8)
    requires p in {0, 2, 4, 6} && q in {0, 2, 4, 6} && x <= 3
    ensures BitsAt(WithBits(b, p, x), q) == if p == q then x else BitsAt(b, q)
  {
    hide BitsAt, WithBits;
    if p == 6 { BitsIndependent6(b, x); }
    else if p == 4 { BitsIndependent4(b, x); }
    else if p == 2 { BitsIndependent2(b, x); }
    else { BitsIndependent0(b, x); }
  }

  /** The pair of bits number `slot` of a byte; the first pair is in the high bits. */
  function GetPair(b: Byte, slot: nat): Usage
    requires slot < 4
  {
    FromBits(BitsAt(b.bits, 6 - 2 * slot))
  }

  function SetPair(b: Byte, slot: nat, usage: Usage): Byte
    requires slot < 4
  {
    Byte(WithBits(b.bits, 6 - 2 * slot, ToBits(usage)))
  }

  /** The four pairs of a byte do not disturb each other. */
  lemma PairsIndependent(b: Byte, i: nat, j: nat, usage: Usage)
    requires i < 4 && j < 4
    ensures GetPair(SetPair(b, i, usage), j) == if i == j then usage else GetPair(b, j)
  {
    hide BitsAt, WithBits;
    BitsIndependent(b.bits, 6 - 2 * i, 6 - 2 * j, ToBits(usage));
  }

  /** The byte as a number: the first pair counts 64, the second 16, the third 4 and the last 1. */
  lemma ByteNumber(b: Byte)
    ensures b.bits as int == 64 * GetPair(b, 0) + 16 * GetPair(b, 1) + 4 * GetPair(b, 2) + GetPair(b, 3)
  {
  }

  /** The colours packed into a byte array. */
  ghost function Unpack(bytes: seq<Byte>): (cs: Colors)
    ensures |cs| == 4 * |bytes|
  {
    seq(4 * |bytes|, i requires 0 <= i < 4 * |bytes| => GetPair(bytes[i / 4], i % 4))
  }

  lemma UnpackUpdate(bytes: seq<Byte>, index: nat, usage: Usage)
    requires index < 4 * |bytes|
    ensures Unpack(bytes[index / 4 := SetPair(bytes[index / 4], index % 4, usage)]) == Unpack(bytes)[index := usage]
  {
    hide GetPair, SetPair;
    var bytes' := bytes[index / 4 := SetPair(bytes[index / 4], index % 4, usage)];
    forall i | 0 <= i < 4 * |bytes| ensures Unpack(bytes')[i] == Unpack(bytes)[index := usage][i] {
      PairsIndependent(bytes[index / 4], index % 4, i % 4, usage);
      if i / 4 == index / 4 && i % 4 == index % 4 { assert i == index; }
    }
  }

  class Heap {
    const usageMap: array<Byte>
    const pageCount: u32

    ghost function Colors(): (cs: Colors)
      reads usageMap
    {
      Unpack(usageMap[..])
    }

    /** Scans for the end of a run stop, at the latest, at the pair behind the last page. */
    ghost predicate Valid()
      reads usageMap
    {
      pageCount < |Colors()| && Colors()[pageCount] == FREE
    }

    /** The live allocations, start page to length. */
    ghost function Blocks(): map<nat, nat>
      requires Valid()
      reads usageMap
    {
      Allocations(Colors(), pageCount)
    }

    constructor (bytes: array<Byte>, pages: u32)
      ensures usageMap == bytes && pageCount == pages
    {
      usageMap := bytes;
      pageCount := pages;
    }

    method GetUsage(index: nat) returns (u: Usage)
      requires index < 4 * usageMap.Length
      ensures u == Colors()[index]
    {
      u := GetPair(usageMap[index / 4], index % 4);
    }

    method SetUsage(index: nat, usage: Usage)
      requires index < 4 * usageMap.Length
      modifies usageMap
      ensures Colors() == old(Colors())[index := usage]
    {
      UnpackUpdate(usageMap[..], index, usage);
      ghost var bytes := usageMap[..];
      usageMap[index / 4] := SetPair(usageMap[index / 4], index % 4, usage);
      assert usageMap[..] == bytes[index / 4 := SetPair(bytes[index / 4], index % 4, usage)];
    }

    method IsSpaceFree(start: nat, space: nat) returns (free: bool)
      requires start + space <= 4 * usageMap.Length
            || exists i :: start <= i < 4 * usageMap.Length && Colors()[i] != FREE
      ensures free == SpaceFree(Colors(), start, space)
    {
      var i, left := start, space;
      while left > 0
        invariant i + left == start + space && start <= i
        invariant forall j :: start <= j < i ==> j < |Colors()| && Colors()[j] == FREE
        decreases left
      {
        left := left - 1;
        var usage := GetUsage(i);
        if usage != FREE {
          return false;
        }
        i := i + 1;
      }
      return true;
    }

    /** A colour for a block between neighbours of the colours `left` and `right`. */
    static method GetNewColor(left: Usage, right: Usage) returns (color: Usage)
      ensures color != FREE && color != left && color != right
    {
      color := left;
      ghost var c1, c2, c3 := NextColor(left), NextColor(NextColor(left)), NextColor(NextColor(NextColor(left)));
      var i := 0;
      while i < 3
        invariant i <= 3
        invariant color == [left, c1, c2, c3][i]
        invariant i >= 1 ==> c1 == left || c1 == right
        invariant i >= 2 ==> c2 == left || c2 == right
        invariant i >= 3 ==> c3 == left || c3 == right
      {
        color := NextColor(color);
        if color != left && color != right {
          return;
        }
        i := i + 1;
      }
      assert false;  // two neighbours cannot have all three colours
    }

    static function NextColor(color: Usage): Usage {
      if color + 1 > 3 then 1 else color + 1
    }

    method MarkUsed(start: nat, space: nat) returns (ghost color: Usage)
      requires Valid() && 0 < space && start + space <= pageCount
      modifies usageMap
      ensures Colors() == Fill(old(Colors()), start, start + space, color)
      ensures Distinct(old(Colors()), start, start + space, color)
    {
      hide Unpack;
      var end := start + space - 1;
      var left, right := FREE, FREE;
      if start > 0 {
        left := GetUsage(start - 1);
      }
      if end < pageCount - 1 {
        right := GetUsage(end + 1);
      }
      var c := GetNewColor(left, right);
      color := c;
      assert Distinct(Colors(), start, start + space, c);
      SetRange(start, start + space, c);
    }

    /** The loops that set the pages [from, to). */
    method SetRange(from: nat, to: nat, usage: Usage)
      requires from <= to <= 4 * usageMap.Length
      modifies usageMap
      ensures Colors() == Fill(old(Colors()), from, to, usage)
    {
      var i := from;
      while i < to
        invariant from <= i <= to
        invariant Colors() == Fill(old(Colors()), from, i, usage)
      {
        SetUsage(i, usage);
        i := i + 1;
      }
    }

    /** First fit: the lowest run of free pages that is long enough. A request for no page at all
        gets one. */
    method Alloc(pages: u32) returns (r: Outcome<nat>, ghost color: Usage)
      requires Valid()
      modifies usageMap
      ensures Valid()
      ensures var cs, need := old(Colors()), if pages == 0 then 1 else pages;
        && (r.Panic? <==> NoFit(cs, pageCount, need))
        && (r.Panic? ==> Colors() == cs)
        && (r.Return? ==>
              && FirstFit(cs, pageCount, need, r.value) && Distinct(cs, r.value, r.value + need, color)
              && Colors() == Fill(cs, r.value, r.value + need, color)
              && r.value !in old(Blocks()) && Blocks() == old(Blocks())[r.value := need])
    {
      hide Allocations, RunLength, Head, Unpack, Fill;
      var space, start := 0, 0;
      ghost var cs, need := Colors(), if pages == 0 then 1 else pages;
      var i := 0;
      while i < pageCount
        invariant start + space == i <= pageCount && space < need
        invariant Colors() == cs
        invariant forall j :: start <= j < i ==> cs[j] == FREE
        invariant forall s: nat :: s < start ==> !SpaceFree(cs, s, need)
      {
        var usage := GetUsage(i);
        if usage == FREE {
          space := space + 1;
          if space >= pages {
            color := MarkUsed(start, space);
            assert SpaceFree(cs, start, need);
            AllocBlocks(cs, pageCount, start, space, color);
            r := Return(start);
            return;
          }
        } else {
          forall s: nat | start <= s <= i ensures !SpaceFree(cs, s, need) {
            assert s <= i < s + need ==> cs[i] != FREE;
          }
          space := 0;
          start := i + 1;
        }
        i := i + 1;
      }
      r, color := Panic, FREE;
    }

    /** Frees the block that starts at `start` and returns its length. */
    method Free(start: nat) returns (r: Outcome<nat>)
      requires Valid() && start < pageCount
      modifies usageMap
      ensures Valid()
      ensures r.Panic? <==> old(Colors())[start] == FREE
      ensures r.Panic? ==> Colors() == old(Colors())
      ensures r.Return? ==>
        && r.value == RunLength(old(Colors()), start) && start + r.value <= pageCount
        && Colors() == Fill(old(Colors()), start, start + r.value, FREE)
      ensures Head(old(Colors()), start) ==>
        start in old(Blocks()) && r == Return(old(Blocks())[start]) && Blocks() == old(Blocks()) - {start}
    {
      hide Allocations, Unpack, Fill, RunLength, Head;
      ghost var cs := Colors();
      if Head(cs, start) {
        FreeBlocks(cs, pageCount, start);
        HeadIsUsed(cs, start);
      }
      var color := GetUsage(start);
      if color == FREE {
        return Panic;
      }
      var freed := FreeRun(start, color);
      r := Return(freed);
    }

    /** The loop that frees pages as long as they have the colour `color`. */
    method FreeRun(start: nat, color: Usage) returns (freed: nat)
      requires Valid() && start < pageCount && color == Colors()[start] != FREE
      modifies usageMap
      ensures freed == RunLength(old(Colors()), start) && start + freed <= pageCount
      ensures Colors() == Fill(old(Colors()), start, start + freed, FREE)
    {
      hide Unpack, Fill, RunLength, GetPair, IsRun, Head;
      ghost var cs := Colors();
      ghost var stop := start + RunLength(cs, start);
      BlockStops(cs, pageCount, start);
      freed := 0;
      var i := start;
      var usage := GetUsage(i);
      while usage == color
        invariant start <= i <= stop && freed == i - start && usage == Colors()[i]
        invariant Colors() == Fill(cs, start, i, FREE)
        decreases stop - i
      {
        freed := freed + 1;
        SetUsage(i, FREE);
        i := i + 1;
        usage := GetUsage(i);
      }
    }

    /** The scan for free pages behind a block to be resized stays within the pages. */
    ghost predicate Scannable(start: nat, pages: u32)
      requires start < |Colors()|
      reads usageMap
    {
      || Wrap32(start + pages) <= pageCount
      || exists i :: start + RunLength(Colors(), start) <= i < pageCount && i < |Colors()| && Colors()[i] != FREE
    }

    /** The scan for the end of a block. */
    method FindEnd(start: nat) returns (end: nat)
      requires Valid() && start < pageCount && Head(Colors(), start)
      ensures end == start + RunLength(Colors(), start) <= pageCount
    {
      hide Unpack, RunLength, Head;
      ghost var cs := Colors();
      ghost var stop := start + RunLength(cs, start);
      HeadIsUsed(cs, start);
      BlockStops(cs, pageCount, start);
      var own := GetUsage(start);
      end := start + 1;
      var usage := GetUsage(end);
      while usage == own
        invariant start < end <= stop && usage == cs[end]
        decreases stop - end
      {
        end := end + 1;
        usage := GetUsage(end);
      }
      assert cs[end] != cs[start];
    }

    /** The pages behind the block are free: it grows, with a new colour if the next block has
        the old one. */
    method Grow(start: nat, end: nat, stop: nat) returns (ghost color: Usage)
      requires Valid() && start < end < stop <= pageCount
      requires Head(Colors(), start) && end == start + RunLength(Colors(), start)
      modifies usageMap
      ensures Distinct(old(Colors()), start, stop, color) && Colors() == Fill(old(Colors()), start, stop, color)
    {
      hide Unpack, Fill, RunLength, Head;
      ghost var cs := Colors();
      HeadIsUsed(cs, start);
      BlockStops(cs, pageCount, start);
      var own := GetUsage(start);
      var next := GetUsage(stop);
      if next == own {
        color := MarkUsed(start, stop - start);
      } else {
        SetRange(end, stop, own);
        color := own;
        assert Colors() == Fill(cs, start, stop, own);
      }
    }

    /** The block moves: the new place is taken before the old one is freed. */
    method Move(start: nat, pages: u32) returns (r: Outcome<(nat, nat)>, ghost color: Usage)
      requires Valid() && start < pageCount && Head(Colors(), start) && 0 < pages
      modifies usageMap
      ensures r.Panic? <==> NoFit(old(Colors()), pageCount, pages)
      ensures r.Return? ==>
        var (s, len) := r.value; var cs := old(Colors());
        && len == RunLength(cs, start) && start + len <= pageCount
        && FirstFit(cs, pageCount, pages, s) && Distinct(cs, s, s + pages, color)
        && Colors() == Fill(Fill(cs, s, s + pages, color), start, start + len, FREE)
    {
      hide Unpack, Fill, RunLength, Allocations, Head;
      ghost var cs := Colors();
      var s;
      s, color := Alloc(pages);
      if s.Panic? {
        return Panic, FREE;
      }
      FillNewKeepsBlock(cs, pageCount, s.value, s.value + pages, color, start);
      HeadIsUsed(Colors(), start);
      var len := Free(start);
      r := Return((s.value, len.value));
    }

    /** Gives a block another length and returns where it is now and how long it was. */
    method Realloc(start: nat, pages: u32) returns (r: Outcome<(nat, nat)>, ghost color: Usage)
      requires Valid() && start < pageCount && Scannable(start, pages)
      requires Head(Colors(), start) || Colors()[start] == FREE
      modifies usageMap
      ensures r.Panic? <==>
        || old(Colors())[start] == FREE
        || (var cs, stop := old(Colors()), Wrap32(start + pages); var end := start + RunLength(cs, start);
            stop > end && !SpaceFree(cs, end, stop - end) && NoFit(cs, pageCount, pages))
      ensures r.Return? ==>
        Resized(old(Colors()), Colors(), pageCount, start, pages, Wrap32(start + pages), r.value.0, r.value.1, color)
    {
      hide Wrap32;
      hide Unpack, Fill, RunLength, Allocations, Head;
      WrappedSum(start, pages);
      var own := GetUsage(start);
      if own == FREE {
        return Panic, FREE;
      }
      var end := FindEnd(start);
      var stop := Wrap32(start + pages);

      if stop <= end {
        SetRange(stop, end, FREE);
        return Return((start, end - start)), own;
      }

      var free := IsSpaceFree(end, stop - end);
      if free {
        color := Grow(start, end, stop);
        r := Return((start, end - start));
      } else {
        r, color := Move(start, pages);
      }
    }
  }

  /** Resizing to at least one page gives a block of that many pages exactly if its end does not
      wrap around 32 bits; otherwise the block is lost. */
  lemma ResizedUnlessWrapped(cs: Colors, cs': Colors, n: u32, start: u32, pages: u32, newStart: nat, oldPages: nat,
                             color: Usage)
    requires start < n < |cs| && cs[n] == FREE && 0 < pages
    requires Resized(cs, cs', n, start, pages, Wrap32(start + pages), newStart, oldPages, color)
    ensures |cs'| == |cs|
    ensures (newStart in Allocations(cs', n) && Allocations(cs', n)[newStart] == pages) <==>
      start + pages < TWO_TO_THE_32
    ensures newStart !in Allocations(cs', n) <==> start + pages >= TWO_TO_THE_32
  {
    hide Fill, RunLength, Head, Allocations, Wrap32;
    WrappedSum(start, pages);
    if start + pages < TWO_TO_THE_32 {
      ResizedBlocks(cs, cs', n, start, pages, newStart, oldPages, color);
    } else {
      FreedPageStartsNoBlock(cs', n, start);
    }
  }

  /** What a request whose end wraps around does: all pages from the wrapped end to the end of the
      block are freed. Blocks that start there are lost, one that reaches into them is cut off. */
  lemma WrappedResize(cs: Colors, cs': Colors, n: u32, start: u32, pages: u32, newStart: nat, oldPages: nat,
                      color: Usage)
    requires start < n < |cs| && cs[n] == FREE && start + pages >= TWO_TO_THE_32
    requires Resized(cs, cs', n, start, pages, Wrap32(start + pages), newStart, oldPages, color)
    ensures var stop, end := start + pages - TWO_TO_THE_32, start + oldPages;
      && |cs'| == |cs| && stop < start < end <= n && newStart == start
      && var m, m' := Allocations(cs, n), Allocations(cs', n);
         && (forall k: nat :: k in m' <==> k in m && !(stop <= k < end))
         && forall k: nat :: k in m' ==> m'[k] == if k < stop && k + m[k] > stop then stop - k else m[k]
  {
    hide Fill, RunLength, Allocations, Wrap32;
    WrappedSum(start, pages);
    BlockStops(cs, n, start);
    HoleAllocations(cs, n, start + pages - TWO_TO_THE_32, start + oldPages);
  }

  /** A block of one page is asked to grow beyond 32 bits: the block before it is freed too. */
  lemma WrappedExample() returns (cs: Colors, cs': Colors)
    ensures |cs| == |cs'| == 3 && Resized(cs, cs', 2, 1, 0xFFFF_FFFF, Wrap32(1 + 0xFFFF_FFFF), 1, 1, GREEN)
    ensures cs[2] == FREE && Allocations(cs, 2).Keys == {0, 1} && Allocations(cs', 2) == map[]
  {
    cs, cs' := [RED, GREEN, FREE], [FREE, FREE, FREE];
    assert Fill(cs, 0, 2, FREE) == cs';
  }

  lemma FreedPageStartsNoBlock(cs: Colors, n: nat, s: nat)
    requires n <= |cs|
    ensures s < |cs| && cs[s] == FREE ==> s !in Allocations(cs, n)
  {
  }
}
