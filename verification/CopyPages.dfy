/** Copying between mapped pages (`pmemcpy` of whole pages, src/memory/mem.c:488), word by word. */
module CopyPages {
  import opened Words
  import opened Entries
  import opened PageTables
  import opened Paging
  import opened PageRanges

  /** The contents of a frame that paging does not use matter to no page table and to no list. */
  lemma DataFrame(p: Phys, dirs: set<int>, tables: set<int>, free: seq<int>, wi: Index, head: u32, f: int, x: Frame)
    requires Layout(p, dirs, tables, free, wi) && FreeChain(p, free, head)
    requires 0 <= f < FRAMES && f !in dirs && f !in tables && f !in free
    ensures var p' := p[f := x];
      && Layout(p', dirs, tables, free, wi) && FreeChain(p', free, head) && SameDirectories(p, p', dirs)
      && SameEntries(p, p', dirs, {}) && SameFrames(p, p', {f})
  {
    hide FrameOf, Present, Shared, Pdi, Pti, TablesApart, ChainLink;
    var p' := p[f := x];
    LayoutFrame(p, p', dirs, tables, free, wi);
  }

  lemma EntryKept(p: Phys, p': Phys, dirs: set<int>, d: int, q: Page)
    requires |p| == |p'| == FRAMES && (forall d :: d in dirs ==> 0 < d < FRAMES) && d in dirs && q < TABLES_PAGE
    requires SameEntries(p, p', dirs, {})
    ensures EntryAt(p', d, q) == EntryAt(p, d, q)
  {
    SlotOrder(q, q);
  }

  /** Copies one page. */
  method CopyPage(m: Memory, dst: Page, src: Page)
    requires m.Valid() && dst < TABLES_PAGE && src < TABLES_PAGE
    requires Present(EntryAt(m.Ram(), m.Dir(), dst)) && Present(EntryAt(m.Ram(), m.Dir(), src))
    requires m.Foreign(FrameOf(EntryAt(m.Ram(), m.Dir(), dst)))
    requires FrameOf(EntryAt(m.Ram(), m.Dir(), dst)) != FrameOf(EntryAt(m.Ram(), m.Dir(), src))
    modifies m.phys
    ensures m.Valid()
    ensures var d, p := m.Dir(), old(m.Ram());
      m.Ram() == p[FrameOf(EntryAt(p, d, dst)) := p[FrameOf(EntryAt(p, d, src))]]
  {
    hide FrameOf, Pdi, Pti, Present, EntryAt, Layout, FreeChain, Shared, SameEntries, SameDirectories, SameFrames,
      FreeUnmapped;
    ghost var p, d := m.Ram(), m.Dir();
    ghost var fd, fs := FrameOf(EntryAt(p, d, dst)), FrameOf(EntryAt(p, d, src));
    ghost var x := p[fd];
    m.Inside();
    assert p == p[fd := x];
    var j := 0;
    while j < TABLE_SIZE
      invariant 0 <= j <= TABLE_SIZE && m.Valid() && |x| == TABLE_SIZE && m.Ram() == p[fd := x]
      invariant forall k :: 0 <= k < j ==> x[k] == p[fs][k]
    {
      DataWord(p, m.dirs, m.tables, m.free, Pdi(m.window), m.freeFramePaddr, d, fd, x, dst, m.window);
      DataWord(p, m.dirs, m.tables, m.free, Pdi(m.window), m.freeFramePaddr, d, fd, x, src, m.window);
      var v := m.Load(src, j);
      m.Store(dst, j, v);
      x := x[j := v];
      assert m.Ram() == p[fd := x];
      DataWord(p, m.dirs, m.tables, m.free, Pdi(m.window), m.freeFramePaddr, d, fd, x, dst, m.window);
      j := j + 1;
    }
    assert x == p[fs];
  }

  /** All of `DataFrame` that one access needs. */
  lemma DataWord(p: Phys, dirs: set<int>, tables: set<int>, free: seq<int>, wi: Index, head: u32, d: int, f: int,
                 x: Frame, q: Page, window: Page)
    requires Layout(p, dirs, tables, free, wi) && FreeChain(p, free, head) && d in dirs && q < TABLES_PAGE
    requires Pdi(window) == wi
    requires 0 <= f < FRAMES && f !in dirs && f !in tables && f !in free
    requires (forall d :: d in dirs ==> 0 < d < FRAMES) && FreeUnmapped(p, dirs, window, free)
    ensures var p' := p[f := x];
      && Layout(p', dirs, tables, free, wi) && FreeChain(p', free, head) && FreeUnmapped(p', dirs, window, free)
      && EntryAt(p', d, q) == EntryAt(p, d, q) && EntryAt(p', d, window) == EntryAt(p, d, window)
  {
    hide FrameOf, Present, Shared, Pdi, Pti, EntryAt, SameEntries, FreeChain, Layout, FreeUnmapped;
    LayoutInside(p, dirs, tables, free, wi, d);
    LayoutDirs(p, dirs, tables, free, wi);
    DataFrame(p, dirs, tables, free, wi, head, f, x);
    SlotOrder(window, window);
    EntryKept(p, p[f := x], dirs, d, q);
    EntryKept(p, p[f := x], dirs, d, window);
    FewerExceptions(p, p[f := x], dirs, {window});
    SameUnmapped(p, p[f := x], dirs, window, free, free);
  }

  /** Copies a range of pages between two disjoint ranges of a heap. */
  method CopyRange(m: Memory, dst: Page, src: Page, count: nat, ghost base: nat, ghost n: nat)
    requires m.Valid() && base + n <= TABLES_PAGE && base <= dst && dst + count <= base + n && base <= src
    requires src + count <= base + n
    requires dst + count <= src || src + count <= dst
    requires Freeable(m.Ram(), m.dirs, m.Dir(), m.tables, m.free, base, n, m.window) && m.window !in Pages(base, n)
    requires Mapped(m.Ram(), m.Dir(), dst, count) && Mapped(m.Ram(), m.Dir(), src, count)
    modifies m.phys
    ensures m.Valid() && Copied(old(m.Ram()), m.Ram(), m.dirs, m.Dir(), dst, src, count)
  {
    hide FrameOf, Pdi, Pti, Present, EntryAt, Layout, FreeChain, Shared, SameEntries, SameDirectories, SameFrames,
      Freeable, Mapped, Copied, Pages;
    ghost var p, d := m.Ram(), m.Dir();
    m.Inside();
    NothingCopied(p, m.dirs, d, dst, src);
    var i := 0;
    while i < count
      invariant 0 <= i <= count && m.Valid() && |m.Ram()| == FRAMES && Copied(p, m.Ram(), m.dirs, d, dst, src, i)
    {
      ghost var p1 := m.Ram();
      m.Inside();
      NextCopy(p, p1, m.dirs, d, m.tables, m.free, base, n, m.window, dst, src, count, i);
      CopyPage(m, dst + i, src + i);
      DataFrame(p1, m.dirs, m.tables, m.free, Pdi(m.window), m.freeFramePaddr, FrameOf(EntryAt(p, d, dst + i)),
        p[FrameOf(EntryAt(p, d, src + i))]);
      CopiedStep(p, p1, m.Ram(), m.dirs, d, m.tables, m.free, base, n, m.window, dst, src, count, i);
      i := i + 1;
    }
  }

  ghost predicate CopiedPage(p: Phys, p': Phys, d: int, dst: nat, src: nat, k: nat)
    requires |p| == |p'| == FRAMES && 0 < d < FRAMES && dst + k < TABLES_PAGE && src + k < TABLES_PAGE
  {
    p'[FrameOf(EntryAt(p, d, dst + k))] == p[FrameOf(EntryAt(p, d, src + k))]
  }

  /** The frames behind the first range have the contents of those behind the second; nothing else
      changed. */
  ghost predicate Copied(p: Phys, p': Phys, dirs: set<int>, d: int, dst: nat, src: nat, count: nat)
    requires |p| == |p'| == FRAMES && (forall d :: d in dirs ==> 0 < d < FRAMES) && d in dirs
    requires dst + count <= TABLES_PAGE && src + count <= TABLES_PAGE
  {
    && SameDirectories(p, p', dirs) && SameEntries(p, p', dirs, {})
    && (forall k :: 0 <= k < count ==> CopiedPage(p, p', d, dst, src, k))
    && SameFrames(p, p', SetOf(Backing(p, d, dst, count)))
  }

  lemma NothingCopied(p: Phys, dirs: set<int>, d: int, dst: nat, src: nat)
    requires |p| == FRAMES && (forall d :: d in dirs ==> 0 < d < FRAMES) && d in dirs && dst <= TABLES_PAGE
    requires src <= TABLES_PAGE
    ensures Copied(p, p, dirs, d, dst, src, 0)
  {
  }

  lemma NextCopy(p: Phys, p1: Phys, dirs: set<int>, d: int, tables: set<int>, free: seq<int>, base: nat, n: nat,
                 window: Page, dst: nat, src: nat, count: nat, i: nat)
    requires |p| == |p1| == FRAMES && (forall d :: d in dirs ==> 0 < d < FRAMES) && d in dirs && base + n <= TABLES_PAGE
    requires base <= dst && dst + count <= base + n && base <= src && src + count <= base + n && i < count
    requires dst + count <= src || src + count <= dst
    requires Freeable(p, dirs, d, tables, free, base, n, window) && window !in Pages(base, n)
    requires Mapped(p, d, dst, count) && Mapped(p, d, src, count)
    requires Copied(p, p1, dirs, d, dst, src, i)
    ensures EntryAt(p1, d, dst + i) == EntryAt(p, d, dst + i) && EntryAt(p1, d, src + i) == EntryAt(p, d, src + i)
    ensures Present(EntryAt(p, d, dst + i)) && Present(EntryAt(p, d, src + i))
    ensures var f := FrameOf(EntryAt(p, d,
              dst + i)); 0 < f && f !in dirs && f !in tables && f !in free && f != FrameOf(EntryAt(p, d, src + i))
    ensures p1[FrameOf(EntryAt(p, d, src + i))] == p[FrameOf(EntryAt(p, d, src + i))]
  {
    hide FrameOf, Present, EntryAt, SameEntries, SameDirectories, Backing, Freeable, OwnFrame, Pages;
    EntryKept(p, p1, dirs, d, dst + i);
    EntryKept(p, p1, dirs, d, src + i);
    assert Present(EntryAt(p, d, dst + i)) && Present(EntryAt(p, d, src + i));
    assert Mapped(p, d, dst, i);
    NotBacking(p, dirs, d, tables, free, base, n, dst, i, src + i, window);
    ItsOwn(p, dirs, d, tables, free, base, n, window, dst + i);
    assert src + i < dst + count || dst + i < src + count;
    FramesDiffer(p, dirs, d, tables, free, base, n, window, dst + i, src + i);
  }

  lemma CopiedStep(p: Phys, p1: Phys, p2: Phys, dirs: set<int>, d: int, tables: set<int>, free: seq<int>, base: nat,
                   n: nat, window: Page, dst: nat, src: nat, count: nat, i: nat)
    requires |p| == |p1| == |p2| == FRAMES && (forall d :: d in dirs ==> 0 < d < FRAMES) && d in dirs
    requires base + n <= TABLES_PAGE
    requires base <= dst && dst + count <= base + n && base <= src && src + count <= base + n && i < count
    requires Freeable(p, dirs, d, tables, free, base, n, window) && window !in Pages(base, n)
    requires Mapped(p, d, dst, count)
    requires Copied(p, p1, dirs, d, dst, src, i)
    requires var f := FrameOf(EntryAt(p, d, dst + i));
      && p2 == p1[f := p[FrameOf(EntryAt(p, d, src + i))]]
      && SameDirectories(p1, p2, dirs) && SameEntries(p1, p2, dirs, {})
    ensures Copied(p, p2, dirs, d, dst, src, i + 1)
  {
    hide FrameOf, Present, EntryAt, SameEntries, SameDirectories, Freeable;
    var f := FrameOf(EntryAt(p, d, dst + i));
    SameAlong(p, p1, p2, dirs, {});
    assert Backing(p, d, dst, i + 1) == [f] + Backing(p, d, dst, i);
    forall k | 0 <= k < i + 1 ensures CopiedPage(p, p2, d, dst, src, k) {
      assert k < i ==> CopiedPage(p, p1, d, dst, src, k);
      if k < i { DifferentFrames(p, dirs, d, tables, free, base, n, window, dst, count, k, i); }
    }
  }

  lemma DifferentFrames(p: Phys, dirs: set<int>, d: int, tables: set<int>, free: seq<int>, base: nat, n: nat,
                        window: Page, dst: nat, count: nat, k: nat, i: nat)
    requires |p| == FRAMES && (forall d :: d in dirs ==> 0 < d < FRAMES) && d in dirs && base + n <= TABLES_PAGE
    requires base <= dst && dst + count <= base + n && k < i < count
    requires Freeable(p, dirs, d, tables, free, base, n, window) && window !in Pages(base, n)
    requires Mapped(p, d, dst, count)
    ensures FrameOf(EntryAt(p, d, dst + k)) != FrameOf(EntryAt(p, d, dst + i))
  {
    hide FrameOf, Present, EntryAt, Freeable, Pages;
    assert Present(EntryAt(p, d, dst + k)) && Present(EntryAt(p, d, dst + i));
    FramesDiffer(p, dirs, d, tables, free, base, n, window, dst + k, dst + i);
  }
}
