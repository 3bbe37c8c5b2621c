/** Page colours of a heap as a sequence, and the allocations that maximal one-coloured runs
    stand for. */
module HeapRuns {
  /** Two bits of usage per page. */
  type Usage = u: int | 0 <= u <= 3
  const FREE: Usage := 0
  const RED: Usage := 1
  const GREEN: Usage := 2
  const BLUE: Usage := 3

  type Colors = seq<Usage>

  /** Pages [s, e) get colour `c`. */
  function Fill(cs: Colors, s: nat, e: nat, c: Usage): (r: Colors)
    requires s <= e <= |cs|
    ensures |r| == |cs|
    ensures forall i :: 0 <= i < |cs| ==> r[i] == if s <= i < e then c else cs[i]
  {
    cs[..s] + seq(e - s, _ => c) + cs[e..]
  }

  predicate SpaceFree(cs: Colors, s: nat, space: nat) {
    s + space <= |cs| && forall i :: s <= i < s + space ==> cs[i] == FREE
  }

  /** An allocation starts at `s`. */
  predicate Head(cs: Colors, s: nat) {
    s < |cs| && cs[s] != FREE && (s > 0 ==> cs[s - 1] != cs[s])
  }

  /** Length of the run of equal colours from `s` on. */
  function RunLength(cs: Colors, s: nat): (n: nat)
    requires s < |cs|
    ensures n > 0 && s + n <= |cs|
    decreases |cs| - s
  {
    if s + 1 < |cs| && cs[s + 1] == cs[s] then 1 + RunLength(cs, s + 1) else 1
  }

  predicate IsRun(cs: Colors, s: nat, n: nat) {
    && n > 0 && s + n <= |cs|
    && (forall i :: s <= i < s + n ==> cs[i] == cs[s])
    && (s + n < |cs| ==> cs[s + n] != cs[s])
  }

  lemma {:induction false} RunLengthIsRun(cs: Colors, s: nat)
    requires s < |cs|
    ensures IsRun(cs, s, RunLength(cs, s))
    decreases |cs| - s
  {
    if s + 1 < |cs| && cs[s + 1] == cs[s] { RunLengthIsRun(cs, s + 1); }
  }

  lemma RunLengthUnique(cs: Colors, s: nat, n: nat)
    requires IsRun(cs, s, n)
    ensures RunLength(cs, s) == n
  {
    RunLengthIsRun(cs, s);
  }

  /** The allocations that the colours of the first `n` pages stand for: start to length. */
  ghost function Allocations(cs: Colors, n: nat): (m: map<nat, nat>)
    requires n <= |cs|
  {
    map s: nat | s < n && Head(cs, s) :: RunLength(cs, s)
  }

  lemma AllocationsAre(cs: Colors, n: nat)
    requires n <= |cs|
    ensures var m := Allocations(cs, n);
      && (forall s: nat :: s in m <==> s < n && Head(cs, s))
      && (forall s: nat :: s in m ==> m[s] == RunLength(cs, s))
  {
  }

  /** No run crosses the position `p`. */
  predicate Boundary(cs: Colors, p: nat) {
    p <= |cs| && (0 < p < |cs| && cs[p] != FREE ==> cs[p - 1] != cs[p])
  }

  /** Recolouring whole runs and free pages with a colour that neither neighbour has makes them
      one allocation, or none, and touches no other. */
  lemma FillAllocations(cs: Colors, n: nat, s: nat, e: nat, c: Usage)
    requires s < e <= n < |cs| && Boundary(cs, s) && Boundary(cs, e)
    requires c != FREE ==> cs[e] != c && (s > 0 ==> cs[s - 1] != c)
    ensures var m, m' := Allocations(cs, n), Allocations(Fill(cs, s, e, c), n);
      && (forall k: nat :: k in m' <==> (k in m && !(s <= k < e)) || (c != FREE && k == s))
      && (forall k: nat :: k in m && !(s <= k < e) ==> m'[k] == m[k])
      && (c != FREE ==> m'[s] == e - s)
  {
    hide Fill, Allocations, Head, RunLength;
    var cs' := Fill(cs, s, e, c);
    AllocationsAre(cs, n);
    AllocationsAre(cs', n);
    forall k: nat | k < n
      ensures Head(cs', k) <==> if s <= k < e then c != FREE && k == s else Head(cs, k)
    {
      FillHead(cs, s, e, c, k);
    }
    forall k: nat | k < n && Head(cs, k) && !(s <= k < e) ensures RunLength(cs', k) == RunLength(cs, k) {
      FillRun(cs, s, e, c, k);
    }
    if c != FREE {
      assert IsRun(cs', s, e - s);
      RunLengthUnique(cs', s, e - s);
    }
  }

  lemma FillHead(cs: Colors, s: nat, e: nat, c: Usage, k: nat)
    requires s < e < |cs| && Boundary(cs, s) && Boundary(cs, e) && k < |cs|
    requires c != FREE ==> cs[e] != c && (s > 0 ==> cs[s - 1] != c)
    ensures Head(Fill(cs, s, e, c), k) <==> if s <= k < e then c != FREE && k == s else Head(cs, k)
  {
    var cs' := Fill(cs, s, e, c);
    assert cs'[k] == if s <= k < e then c else cs[k];
    if k > 0 { assert cs'[k - 1] == if s <= k - 1 < e then c else cs[k - 1]; }
  }

  lemma FillRun(cs: Colors, s: nat, e: nat, c: Usage, k: nat)
    requires s < e < |cs| && Boundary(cs, s) && Boundary(cs, e)
    requires c != FREE && s > 0 ==> cs[s - 1] != c
    requires Head(cs, k) && !(s <= k < e)
    ensures RunLength(Fill(cs, s, e, c), k) == RunLength(cs, k)
  {
    var cs', n := Fill(cs, s, e, c), RunLength(cs, k);
    RunLengthIsRun(cs, k);
    assert k < s ==> k + n <= s;
    assert IsRun(cs', k, n);
    RunLengthUnique(cs', k, n);
  }

  /** A block is put into free pages. */
  lemma FillNew(cs: Colors, n: nat, s: nat, e: nat, c: Usage)
    requires s < e <= n < |cs| && cs[n] == FREE && SpaceFree(cs, s, e - s)
    requires c != FREE && cs[e] != c && (s > 0 ==> cs[s - 1] != c)
    ensures Allocations(Fill(cs, s, e, c), n) == Allocations(cs, n)[s := e - s]
  {
    hide Fill, Head, RunLength, Allocations;
    FillAllocations(cs, n, s, e, c);
    NoHeads(cs, n, s, e);
  }

  /** No allocation starts in the pages (s, e) if they have one colour, nor at `s` if it is free. */
  lemma NoHeads(cs: Colors, n: nat, s: nat, e: nat)
    requires s < e <= n < |cs| && forall i :: s <= i < e ==> cs[i] == cs[s]
    ensures forall k: nat :: s < k < e ==> k !in Allocations(cs, n)
    ensures cs[s] == FREE ==> s !in Allocations(cs, n)
  {
    forall k: nat | s < k < e ensures !Head(cs, k) {
      assert cs[k - 1] == cs[k];
    }
  }

  /** A whole block is freed. */
  lemma FillFreed(cs: Colors, n: nat, s: nat)
    requires s < n < |cs| && cs[n] == FREE && Head(cs, s)
    ensures s in Allocations(cs, n) && Allocations(cs, n)[s] == RunLength(cs, s) && s + RunLength(cs, s) <= n
    ensures Allocations(Fill(cs, s, s + RunLength(cs, s), FREE), n) == Allocations(cs, n) - {s}
  {
    hide Fill, Head, RunLength, Allocations;
    var e := s + RunLength(cs, s);
    HeadIsUsed(cs, s);
    BlockStops(cs, n, s);
    FillAllocations(cs, n, s, e, FREE);
    NoHeads(cs, n, s, e);
    AllocationsAre(cs, n);
  }

  lemma RemoveThenPut(m: map<nat, nat>, s: nat, len: nat)
    ensures (m - {s})[s := len] == m[s := len]
  {
  }

  lemma FillAgain(cs: Colors, s: nat, e: nat, len: nat, c: Usage)
    requires s < e <= |cs| && s + len <= |cs|
    requires s + len <= e ==> forall i :: s <= i < e ==> cs[i] == c
    ensures Fill(Fill(cs, s, e, FREE), s, s + len, c)
         == if s + len <= e then Fill(cs, s + len, e, FREE) else Fill(cs, s, s + len, c)
  {
    hide Fill;
  }

  /** A whole block is cut down to its first `len` pages. */
  lemma FillShrunk(cs: Colors, n: nat, s: nat, len: nat)
    requires s < n < |cs| && cs[n] == FREE && Head(cs, s) && 0 < len <= RunLength(cs, s)
    ensures s + len <= s + RunLength(cs, s) <= n
    ensures Allocations(Fill(cs, s + len, s + RunLength(cs, s), FREE), n) == Allocations(cs, n)[s := len]
  {
    hide Fill, Head, RunLength, Allocations;
    BlockEnds(cs, n, s);
    Resize(cs, n, s, s + RunLength(cs, s), len, cs[s]);
  }

  /** A whole block gets the free pages behind it, and possibly a new colour. */
  lemma FillGrown(cs: Colors, n: nat, s: nat, len: nat, c: Usage)
    requires s < n < |cs| && cs[n] == FREE && Head(cs, s) && RunLength(cs, s) < len && s + len <= n
    requires var e := s + RunLength(cs, s); SpaceFree(cs, e, s + len - e)
    requires c != FREE && cs[s + len] != c && (s > 0 ==> cs[s - 1] != c)
    ensures Allocations(Fill(cs, s, s + len, c), n) == Allocations(cs, n)[s := len]
  {
    hide Fill, Head, RunLength, Allocations;
    BlockEnds(cs, n, s);
    Resize(cs, n, s, s + RunLength(cs, s), len, c);
  }

  lemma BlockStops(cs: Colors, n: nat, s: nat)
    requires s < n < |cs| && cs[n] == FREE && cs[s] != FREE
    ensures var e := s + RunLength(cs, s);
      e <= n && cs[e] != cs[s] && (forall i :: s <= i < e ==> cs[i] == cs[s])
  {
    RunLengthIsRun(cs, s);
  }

  lemma BlockEnds(cs: Colors, n: nat, s: nat)
    requires s < n < |cs| && cs[n] == FREE && Head(cs, s)
    ensures var e := s + RunLength(cs, s);
      && e <= n && cs[s] != FREE && cs[e] != cs[s] && (forall i :: s <= i < e ==> cs[i] == cs[s])
      && (s > 0 ==> cs[s - 1] != cs[s])
      && Allocations(Fill(cs, s, e, FREE), n) == Allocations(cs, n) - {s}
  {
    HeadIsUsed(cs, s);
    BlockStops(cs, n, s);
    FillFreed(cs, n, s);
  }

  lemma Resize(cs: Colors, n: nat, s: nat, e: nat, len: nat, c: Usage)
    requires s < e <= n < |cs| && cs[n] == FREE
    requires 0 < len && s + len <= n && c != FREE && (s > 0 ==> cs[s - 1] != c)
    requires s + len <= e ==> cs[e] != c && forall i :: s <= i < e ==> cs[i] == c
    requires s + len > e ==> SpaceFree(cs, e, s + len - e) && cs[s + len] != c
    requires Allocations(Fill(cs, s, e, FREE), n) == Allocations(cs, n) - {s}
    ensures Allocations(if s + len <= e then Fill(cs, s + len, e, FREE) else Fill(cs, s, s + len, c), n)
         == Allocations(cs, n)[s := len]
  {
    hide Fill, Head, RunLength, Allocations;
    FreedRoom(cs, n, s, e, len, c);
    FillNew(Fill(cs, s, e, FREE), n, s, s + len, c);
    FillAgain(cs, s, e, len, c);
    RemoveThenPut(Allocations(cs, n), s, len);
  }

  lemma FreedRoom(cs: Colors, n: nat, s: nat, e: nat, len: nat, c: Usage)
    requires s < e <= n < |cs| && cs[n] == FREE && 0 < len && s + len <= n && c != FREE && (s > 0 ==> cs[s - 1] != c)
    requires if s + len <= e then cs[e] != c else SpaceFree(cs, e, s + len - e) && cs[s + len] != c
    ensures var cs1 := Fill(cs, s, e, FREE);
      cs1[n] == FREE && SpaceFree(cs1, s, len) && cs1[s + len] != c && (s > 0 ==> cs1[s - 1] != c)
  {
    hide Fill;
  }

  // ---------- the operations ----------

  /** `r` is the lowest start of a run of `need` free pages within the first `n`. */
  ghost predicate FirstFit(cs: Colors, n: nat, need: nat, r: nat) {
    && r + need <= n && SpaceFree(cs, r, need)
    && forall s: nat :: s < r ==> !SpaceFree(cs, s, need)
  }

  ghost predicate NoFit(cs: Colors, n: nat, need: nat) {
    forall s: nat :: s + need <= n ==> !SpaceFree(cs, s, need)
  }

  /** Colour `c` tells the pages [s, e) from both neighbours. */
  predicate Distinct(cs: Colors, s: nat, e: nat, c: Usage)
    requires s <= e < |cs|
  {
    c != FREE && cs[e] != c && (s > 0 ==> cs[s - 1] != c)
  }

  lemma AllocBlocks(cs: Colors, n: nat, s: nat, need: nat, c: Usage)
    requires n < |cs| && cs[n] == FREE && 0 < need && FirstFit(cs, n, need, s) && Distinct(cs, s, s + need, c)
    ensures s !in Allocations(cs, n)
    ensures Allocations(Fill(cs, s, s + need, c), n) == Allocations(cs, n)[s := need]
  {
    hide Fill, Allocations;
    NotAllocated(cs, n, s);
    FillNew(cs, n, s, s + need, c);
  }

  lemma NotAllocated(cs: Colors, n: nat, s: nat)
    requires s < n <= |cs| && cs[s] == FREE
    ensures s !in Allocations(cs, n)
  {
    hide RunLength;
  }

  lemma FreeBlocks(cs: Colors, n: nat, s: nat)
    requires s < n < |cs| && cs[n] == FREE && Head(cs, s)
    ensures s in Allocations(cs, n) && Allocations(cs, n)[s] == RunLength(cs, s) && s + RunLength(cs, s) <= n
    ensures Allocations(Fill(cs, s, s + RunLength(cs, s), FREE), n) == Allocations(cs, n) - {s}
  {
    FillFreed(cs, n, s);
  }

  /** How the colours change when a block is resized: it shrinks or grows in place or moves.
      `stop` is where the block would end if it stayed. */
  ghost predicate Resized(cs: Colors, cs': Colors, n: nat, start: nat, pages: nat, stop: nat, newStart: nat,
                          oldPages: nat, color: Usage)
    requires start < n < |cs|
  {
    var end := start + RunLength(cs, start);
    && Head(cs, start) && oldPages == RunLength(cs, start) && end <= n
    && if stop <= end then
         newStart == start && cs' == Fill(cs, stop, end, FREE)
       else if SpaceFree(cs, end, stop - end) then
         newStart == start && stop <= n && Distinct(cs, start, stop, color) && cs' == Fill(cs, start, stop, color)
       else
         && 0 < pages && FirstFit(cs, n, pages, newStart)
         && Distinct(cs, newStart, newStart + pages, color)
         && cs' == Fill(Fill(cs, newStart, newStart + pages, color), start, end, FREE)
  }

  /** A resized block is where and as long as asked, and no other block changes. */
  lemma ResizedBlocks(cs: Colors, cs': Colors, n: nat, start: nat, pages: nat, newStart: nat, oldPages: nat,
                      color: Usage)
    requires start < n < |cs| && cs[n] == FREE
    requires Resized(cs, cs', n, start, pages, start + pages, newStart, oldPages, color)
    ensures start in Allocations(cs, n) && Allocations(cs, n)[start] == oldPages
    ensures |cs'| == |cs| && cs'[n] == FREE && Allocations(cs', n) ==
      if pages == 0 then Allocations(cs, n) - {start} else (Allocations(cs, n) - {start})[newStart := pages]
    ensures newStart == start || newStart + pages <= start || start + oldPages <= newStart
  {
    hide Fill, RunLength, Allocations, Head;
    var m, end := Allocations(cs, n), start + RunLength(cs, start);
    FreeBlocks(cs, n, start);
    RemoveThenPut(m, start, pages);
    if start + pages <= end {
      if pages > 0 { FillShrunk(cs, n, start, pages); }
    } else if SpaceFree(cs, end, start + pages - end) {
      FillGrown(cs, n, start, pages, color);
    } else {
      MovedBlocks(cs, n, start, pages, newStart, color);
    }
  }

  lemma MovedBlocks(cs: Colors, n: nat, start: nat, pages: nat, s: nat, c: Usage)
    requires start < n < |cs| && cs[n] == FREE && Head(cs, start)
    requires 0 < pages && s + pages <= n && SpaceFree(cs, s, pages) && Distinct(cs, s, s + pages, c)
    ensures start + RunLength(cs, start) <= n && (start + RunLength(cs, start) <= s || s + pages <= start)
    ensures Allocations(Fill(Fill(cs, s, s + pages, c), start, start + RunLength(cs, start), FREE), n)
         == (Allocations(cs, n) - {start})[s := pages]
  {
    hide Fill, RunLength, Allocations, Head;
    var cs1 := Fill(cs, s, s + pages, c);
    FillNew(cs, n, s, s + pages, c);
    FillNewKeepsBlock(cs, n, s, s + pages, c, start);
    FreeBlocks(cs1, n, start);
    PutThenRemove(Allocations(cs, n), s, start, pages);
  }

  /** A new block in free pages leaves an old block as it was. */
  lemma FillNewKeepsBlock(cs: Colors, n: nat, s: nat, e: nat, c: Usage, k: nat)
    requires s < e <= n < |cs| && cs[n] == FREE && SpaceFree(cs, s, e - s) && Distinct(cs, s, e, c)
    requires k < n && Head(cs, k)
    ensures var cs' := Fill(cs, s, e, c);
      Head(cs', k) && RunLength(cs', k) == RunLength(cs, k) && (k + RunLength(cs, k) <= s || e <= k) && k != s
  {
    hide Fill, RunLength;
    RunLengthIsRun(cs, k);
    FillHead(cs, s, e, c, k);
    FillRun(cs, s, e, c, k);
    assert cs[s] == FREE;
  }

  lemma HeadIsUsed(cs: Colors, s: nat)
    requires Head(cs, s)
    ensures s < |cs| && cs[s] != FREE && (s > 0 ==> cs[s - 1] != cs[s])
  {
  }

  lemma PutThenRemove(m: map<nat, nat>, s: nat, k: nat, len: nat)
    requires s != k
    ensures m[s := len] - {k} == (m - {k})[s := len]
  {
  }

  /** Which pages are used before, between and after the steps of resizing a block. */
  ghost predicate UseResized(cs: Colors, cs1: Colors, cs': Colors, n: nat, start: nat, len: nat, newStart: nat,
                             pages: nat) {
    var end := start + len;
    && 0 < len && 0 < pages && end <= n && newStart + pages <= n && n < |cs| == |cs1| == |cs'|
    && (forall i :: start <= i < end ==> cs[i] != FREE)
    && if newStart != start then
         && pages > len && (end <= newStart || newStart + pages <= start) && SpaceFree(cs, newStart, pages)
         && (forall i :: 0 <= i < n ==> (cs1[i] != FREE <==> cs[i] != FREE || newStart <= i < newStart + pages))
         && forall i :: 0 <= i < n ==> (cs'[i] != FREE <==> cs1[i] != FREE && !(start <= i < end))
       else if pages < len then
         forall i :: 0 <= i < n ==> (cs'[i] != FREE <==> cs[i] != FREE && !(start + pages <= i < end))
       else
         && SpaceFree(cs, end, pages - len)
         && forall i :: 0 <= i < n ==> (cs'[i] != FREE <==> cs[i] != FREE || end <= i < start + pages)
  }

  lemma ResizedUse(cs: Colors, cs': Colors, n: nat, start: nat, pages: nat, newStart: nat, oldPages: nat, color: Usage)
    returns (cs1: Colors)
    requires start < n < |cs| && cs[n] == FREE && 0 < pages
    requires Resized(cs, cs', n, start, pages, start + pages, newStart, oldPages, color)
    ensures oldPages == RunLength(cs, start) && UseResized(cs, cs1, cs', n, start, oldPages, newStart, pages)
    ensures newStart != start ==> FirstFit(cs, n, pages, newStart) && !SpaceFree(cs, start + oldPages, pages - oldPages)
  {
    hide RunLength, Head, Fill;
    HeadIsUsed(cs, start);
    BlockStops(cs, n, start);
    FirstIsFree(cs, n, pages, newStart);
    cs1 := if newStart == start then cs else Fill(cs, newStart, newStart + pages, color);
  }

  lemma FirstIsFree(cs: Colors, n: nat, pages: nat, s: nat)
    ensures FirstFit(cs, n, pages, s) ==> s + pages <= n && forall i :: s <= i < s + pages ==> i < |cs| && cs[i] == FREE
  {
  }

  // ---------- a hole in the pages ----------

  /** Freeing pages [a, e) up to the end of a run: blocks that start there go, and one that reaches
      into them is cut off. */
  lemma HoleAllocations(cs: Colors, n: nat, a: nat, e: nat)
    requires a < e <= n < |cs| && Boundary(cs, e)
    ensures var m, m' := Allocations(cs, n), Allocations(Fill(cs, a, e, FREE), n);
      && (forall k: nat :: k in m' <==> k in m && !(a <= k < e))
      && forall k: nat :: k in m' ==> m'[k] == if k < a && k + m[k] > a then a - k else m[k]
  {
    hide Fill, Allocations, Head, RunLength;
    var cs' := Fill(cs, a, e, FREE);
    AllocationsAre(cs, n);
    AllocationsAre(cs', n);
    forall k: nat | k < n ensures Head(cs', k) <==> Head(cs, k) && !(a <= k < e) {
      HoleHead(cs, a, e, k);
    }
    forall k: nat | k < n && Head(cs, k) && !(a <= k < e)
      ensures var len := RunLength(cs, k); RunLength(cs', k) == if k < a && k + len > a then a - k else len
    {
      HoleRun(cs, a, e, k);
    }
  }

  lemma HoleHead(cs: Colors, a: nat, e: nat, k: nat)
    requires a < e < |cs| && Boundary(cs, e) && k < |cs|
    ensures Head(Fill(cs, a, e, FREE), k) <==> Head(cs, k) && !(a <= k < e)
  {
    var cs' := Fill(cs, a, e, FREE);
    assert cs'[k] == if a <= k < e then FREE else cs[k];
    if k > 0 { assert cs'[k - 1] == if a <= k - 1 < e then FREE else cs[k - 1]; }
  }

  lemma HoleRun(cs: Colors, a: nat, e: nat, k: nat)
    requires a < e < |cs| && Boundary(cs, e) && Head(cs, k) && !(a <= k < e)
    ensures var len := RunLength(cs, k);
      RunLength(Fill(cs, a, e, FREE), k) == if k < a && k + len > a then a - k else len
  {
    hide RunLength;
    var cs', len := Fill(cs, a, e, FREE), RunLength(cs, k);
    RunLengthIsRun(cs, k);
    var len' := if k < a && k + len > a then a - k else len;
    assert IsRun(cs', k, len');
    RunLengthUnique(cs', k, len');
  }
}
