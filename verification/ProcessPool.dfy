/** Process structures and their pool (src/process/processes.h, src/process/pool.c): the list of
    free structures is linked through the structures themselves. */
module ProcessPools {
  import opened Words
  import opened RbShape
  import opened Queues

  /** How many structures of 32 bytes a page of 4096 holds. */
  const PER_PAGE: nat := 128

  /** The first word of a process structure: the address of its page directory while it is in
      use, the next free structure otherwise. */
  datatype FirstWord = PageDir(paddr: u32) | NextFree(next: Process?)

  class Process {
    var first: FirstWord
    const queueNode: QueueNode
    const rbNode: RbNode
    var blocked: bool

    constructor ()
      ensures fresh(queueNode) && fresh(rbNode)
    {
      first := PageDir(0);
      queueNode := new QueueNode();
      rbNode := new RbNode();
      blocked := false;
    }
  }

  ghost function FreeAt(free: seq<Process>, k: nat): Process? {
    if k < |free| then free[k] else null
  }

  ghost predicate AllDifferent(s: seq<Process>) {
    forall i, j :: 0 <= i < j < |s| ==> s[i] != s[j]
  }

  /** Different structures contain different nodes. */
  ghost predicate SeparateNodes(slots: set<Process>) {
    forall p, q :: p in slots && q in slots && p != q ==> p.rbNode != q.rbNode && p.queueNode != q.queueNode
  }

  class ProcessPool {
    var freeList: Process?
    /** All structures that the pool ever carved out of pages. */
    var slots: set<Process>
    ghost var free: seq<Process>

    ghost predicate Valid()
      reads this, free
    {
      && AllDifferent(free) && (forall p :: p in free ==> p in slots) && SeparateNodes(slots)
      && freeList == FreeAt(free, 0)
      && forall k :: 0 <= k < |free| ==> free[k].first == NextFree(FreeAt(free, k + 1))
    }

    constructor ()
      ensures Valid() && free == [] && slots == {}
    {
      freeList, slots, free := null, {}, [];
    }

    /** The next structure to be taken, if there is one, and the nodes in it. */
    ghost function Spare(): set<Process>
      reads this
    {
      if freeList == null then {} else {freeList}
    }

    ghost function SpareRbNode(): set<RbNode>
      reads this
    {
      if freeList == null then {} else {freeList.rbNode}
    }

    ghost function SpareQueueNode(): set<QueueNode>
      reads this
    {
      if freeList == null then {} else {freeList.queueNode}
    }

    /** Gives a structure back. */
    method Destroy(p: Process)
      requires Valid() && p in slots && p !in free
      modifies this`freeList, this`free, p`first
      ensures Valid() && free == [p] + old(free)
    {
      p.first := NextFree(freeList);
      freeList := p;
      ghost var was := free;
      free := [p] + free;
      assert forall k :: 0 < k < |free| ==> free[k] == was[k - 1];
    }

    /** A page of structures, none of them known to anybody. */
    static method NewPage() returns (page: seq<Process>)
      ensures |page| == PER_PAGE && AllDifferent(page)
      ensures forall p :: p in page ==> fresh(p) && fresh(p.rbNode) && fresh(p.queueNode)
      ensures forall i, j :: 0 <= i < j < |page| ==>
                page[i].rbNode != page[j].rbNode && page[i].queueNode != page[j].queueNode
    {
      page := [];
      while |page| < PER_PAGE
        invariant |page| <= PER_PAGE && AllDifferent(page)
        invariant forall p :: p in page ==> fresh(p) && fresh(p.rbNode) && fresh(p.queueNode)
        invariant forall i, j :: 0 <= i < j < |page| ==>
                    page[i].rbNode != page[j].rbNode && page[i].queueNode != page[j].queueNode
      {
        var p := new Process();
        page := page + [p];
      }
    }

    /** Carves a new page into free structures, the last one first. */
    method Carve()
      requires Valid() && free == []
      modifies this
      ensures Valid() && |free| == 128 && old(slots) <= slots
      ensures forall p :: p in free <==> p in slots && p !in old(slots)
      ensures forall p :: p in free ==> fresh(p) && fresh(p.rbNode) && fresh(p.queueNode)
    {
      var page := NewPage();
      slots := slots + set p | p in page;
      var n := PER_PAGE;
      while n > 0
        invariant 0 <= n <= PER_PAGE && Valid() && free == page[n..]
        invariant slots == old(slots) + set p | p in page
        decreases n
      {
        n := n - 1;
        Destroy(page[n]);
      }
    }

    /** Unlinks the first free structure. */
    method Take() returns (p: Process)
      requires Valid() && free != []
      modifies this`freeList, this`free
      ensures Valid() && old(free) == [p] + free && p !in free && p in slots
    {
      hide SeparateNodes;
      p := freeList;
      freeList := p.first.next;
      ghost var was := free;
      free := free[1..];
      assert forall k :: 0 <= k < |free| ==> free[k] == was[k + 1];
      assert was == [p] + free;
    }

    /** Takes a structure, carving a new page when there is none; panics exactly if there is none and
        no page either. The structure is in use by nobody else. */
    method Create(pageLeft: bool) returns (r: Outcome<Process>)
      requires Valid()
      modifies this
      ensures r.Panic? <==> old(free) == [] && !pageLeft
      ensures r.Panic? ==> Valid() && unchanged(this)
      ensures r.Return? ==>
        && Valid() && old(slots) <= slots && r.value in slots && r.value !in free
        && (if old(free) != [] then r.value == old(free)[0] == old(freeList)
            else old(freeList) == null && fresh(r.value) && r.value !in old(slots))
        && (forall q :: q in slots && q !in free <==> (q in old(slots) && q !in old(free)) || q == r.value)
        && (forall q :: q in slots && q !in old(slots) ==> fresh(q) && fresh(q.rbNode) && fresh(q.queueNode))
    {
      hide SeparateNodes, AllDifferent;
      if freeList == null {
        if !pageLeft {
          return Panic;
        }
        Carve();
      }
      ghost var was := free;
      var p := Take();
      assert forall q :: q in was <==> q in free || q == p;
      r := Return(p);
    }
  }
}
