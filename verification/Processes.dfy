/** The process table and the run queue (src/process/processes.c). */
module Processes {
  import opened Words
  import opened RbShape
  import opened RbTrees
  import opened Queues
  import opened ProcessPools

  const PID_NOT_FOUND: u32 := 1

  /** The identifier of a process: its 16-bit address-space identifier in the high half. */
  function Pid(aid: u16): (pid: u32)
    ensures pid / 0x1_0000 == aid && pid % 0x1_0000 == 0
  {
    aid * TWO_TO_THE_16
  }

  function AidPart(pid: u32): (aid: u16)
    ensures 0x1_0000 * aid <= pid < 0x1_0000 * (aid + 1)
  {
    pid / TWO_TO_THE_16
  }

  lemma WholePart(pid: u32)
    ensures Pid(AidPart(pid)) == pid - pid % 0x1_0000
  {
  }

  /** The aid that a 16-bit counter shows `i` steps after `start`. */
  function AidAfter(start: u16, i: nat): u16 {
    (start + i) % TWO_TO_THE_16
  }

  /** Every aid is some number of steps from a given one. */
  lemma AidDistance(start: u16, aid: u16)
    ensures exists i :: 0 <= i < TWO_TO_THE_16 && AidAfter(start, i) == aid
  {
    var i: nat := if aid >= start then aid - start else aid + TWO_TO_THE_16 - start;
    assert AidAfter(start, i) == aid;
  }

  lemma AidSteps(start: u16, i: nat)
    requires i < TWO_TO_THE_16
    ensures AidAfter(AidAfter(start, i), 1) == AidAfter(start, i + 1) && AidAfter(start, 0) == start
    ensures AidAfter(start, i + 1) == start <==> i + 1 == TWO_TO_THE_16
  {
  }

  /** From the counter `start` on, `pid` is the first identifier that is not in `used`, and `next` the
      counter behind it: the identifiers between, around the end of 16 bits if need be, are all used. */
  ghost predicate FirstFree(start: u16, pid: u32, next: u16, used: set<u32>) {
    var aid := pid / 0x1_0000;
    && pid % 0x1_0000 == 0 && pid !in used && next == (if aid == 0xFFFF then 0 else aid + 1)
    && forall other: u16 :: (if aid >= start then start <= other < aid else start <= other || other < aid) ==>
         Pid(other) in used
  }

  lemma AidIs(start: u16, i: nat)
    requires i <= TWO_TO_THE_16
    ensures AidAfter(start, i) == if start + i < TWO_TO_THE_16 then start + i else start + i - TWO_TO_THE_16
  {
  }

  lemma FirstFreeIs(start: u16, steps: nat, used: set<u32>)
    requires steps < TWO_TO_THE_16 && Pid(AidAfter(start, steps)) !in used
    requires forall i :: 0 <= i < steps ==> Pid(AidAfter(start, i)) in used
    ensures FirstFree(start, Pid(AidAfter(start, steps)), AidAfter(start, steps + 1), used)
  {
    hide Pid, AidAfter;
    var aid := AidAfter(start, steps);
    AidIs(start, steps);
    AidIs(start, steps + 1);
    forall other: u16 | if aid >= start then start <= other < aid else start <= other || other < aid
      ensures Pid(other) in used
    {
      var i: nat := if other >= start then other - start else other + TWO_TO_THE_16 - start;
      AidIs(start, i);
      assert AidAfter(start, i) == other && i < steps;
    }
  }

  /** Tree, pool and table agree: the tree has the nodes of exactly the live processes. */
  ghost predicate Agree(m: map<u32, RbNode>, repr: set<RbNode>, slots: set<Process>, free: seq<Process>,
                        pids: map<u32, Process>, extra: set<Process>)
  {
    && m.Keys == pids.Keys
    && (forall k :: k in pids ==>
          && m[k] == pids[k].rbNode && pids[k] in slots && pids[k] !in free && pids[k] !in extra
          && k % TWO_TO_THE_16 == 0)
    && (forall p :: p in slots && p !in free && p !in extra ==> p in pids.Values)
    && (forall p :: p in slots && p.rbNode in repr ==> p !in free && p !in extra)
    && forall k, l :: k in pids && l in pids && pids[k] == pids[l] ==> k == l
  }

  lemma EnterAgrees(m: map<u32, RbNode>, repr: set<RbNode>, slots: set<Process>, free: seq<Process>,
                    pids: map<u32, Process>, p: Process, pid: u32)
    requires Agree(m, repr, slots, free, pids, {p}) && SeparateNodes(slots)
    requires p in slots && p !in free && p !in pids.Values && pid !in m && pid % TWO_TO_THE_16 == 0
    ensures Agree(m[pid := p.rbNode], repr + {p.rbNode}, slots, free, pids[pid := p], {})
  {
    var pids' := pids[pid := p];
    assert pids'[pid] == p;
    forall q | q in slots && q !in free ensures q in pids'.Values {
      if q != p {
        var k :| k in pids && pids[k] == q;
        assert pids'[k] == q;
      }
    }
  }

  lemma ReleaseAgrees(m: map<u32, RbNode>, repr: set<RbNode>, slots: set<Process>, free: seq<Process>,
                      pids: map<u32, Process>, pid: u32)
    requires Agree(m, repr, slots, free, pids, {}) && pid in pids && SeparateNodes(slots)
    ensures Agree(m - {pid}, repr - {pids[pid].rbNode}, slots, [pids[pid]] + free, pids - {pid}, {})
  {
    var p, pids' := pids[pid], pids - {pid};
    forall q | q in slots && q !in [p] + free ensures q in pids'.Values {
      var k :| k in pids && pids[k] == q;
      assert k in pids' && pids'[k] == q;
    }
  }

  lemma NewAgrees(m: map<u32, RbNode>, repr: set<RbNode>, slots: set<Process>, free: seq<Process>, slots': set<Process>,
                  free': seq<Process>, pids: map<u32, Process>, p: Process)
    requires Agree(m, repr, slots, free, pids, {}) && slots <= slots' && p in slots' && p !in free'
    requires p in free || p !in slots
    requires forall q :: q in slots' && q !in free' <==> (q in slots && q !in free) || q == p
    requires forall q :: q in slots' && q !in slots ==> q.rbNode !in repr
    ensures Agree(m, repr, slots', free', pids, {p}) && p.rbNode !in repr && p !in pids.Values
  {
  }

  /** A list of queue nodes belongs to these processes, each queued once. */
  ghost predicate QueueHolds(items: seq<QueueNode>, run: seq<Process>, live: set<Process>) {
    && |items| == |run| && AllDifferent(run)
    && forall i :: 0 <= i < |run| ==> items[i] == run[i].queueNode && run[i] in live
  }

  lemma QueueMore(items: seq<QueueNode>, run: seq<Process>, live: set<Process>, p: Process, slots: set<Process>)
    requires QueueHolds(items, run, live) && p !in run && SeparateNodes(slots) && p in slots && live <= slots
    ensures p.queueNode !in items && QueueHolds(items + [p.queueNode], run + [p], live + {p})
  {
  }

  lemma QueueLess(items: seq<QueueNode>, run: seq<Process>, live: set<Process>)
    requires QueueHolds(items, run, live) && run != []
    ensures items != [] && items[0] == run[0].queueNode && run[0] in live && run[0] !in run[1..]
    ensures QueueHolds(items[1..], run[1..], live)
  {
  }

  lemma QueueLive(items: seq<QueueNode>, run: seq<Process>, live: set<Process>, live': set<Process>)
    requires QueueHolds(items, run, live) && forall q :: q in run && q in live ==> q in live'
    ensures QueueHolds(items, run, live')
  {
  }

  // ---------- the order of execution ----------

  /** What happens to the started processes: another one is started, or the timer ticks. */
  datatype Event = Start(p: Process) | Tick

  /** The order in which processes get the processor: on a tick the current one goes to the end. */
  ghost function Apply(started: seq<Process>, e: Event): seq<Process> {
    match e
    case Start(p) => started + [p]
    case Tick => if started == [] then [] else started[1..] + [started[0]]
  }

  ghost function ApplyAll(started: seq<Process>, events: seq<Event>): seq<Process>
    decreases |events|
  {
    if events == [] then started else ApplyAll(Apply(started, events[0]), events[1..])
  }

  ghost function Ticks(events: seq<Event>): nat {
    if events == [] then 0 else (if events[0].Tick? then 1 else 0) + Ticks(events[1..])
  }

  ghost function StartedIn(events: seq<Event>): seq<Process> {
    if events == [] then [] else (if events[0].Start? then [events[0].p] else []) + StartedIn(events[1..])
  }

  /** A process with `k` processes before it runs after `k` ticks, whatever is started meanwhile. */
  lemma {:induction false} RoundRobin(started: seq<Process>, events: seq<Event>)
    requires Ticks(events) < |started|
    ensures ApplyAll(started, events) != [] && ApplyAll(started, events)[0] == started[Ticks(events)]
    decreases |events|
  {
    if events != [] {
      RoundRobin(Apply(started, events[0]), events[1..]);
    }
  }

  /** No process is lost or duplicated. */
  lemma {:induction false} EachOnce(started: seq<Process>, events: seq<Event>)
    ensures multiset(ApplyAll(started, events)) == multiset(started) + multiset(StartedIn(events))
    decreases |events|
  {
    if events != [] {
      var e := events[0];
      EachOnce(Apply(started, e), events[1..]);
      if e.Tick? {
        TickReorders(started);
      } else {
        assert multiset(StartedIn(events)) == multiset{e.p} + multiset(StartedIn(events[1..]));
      }
    }
  }

  lemma TickReorders(started: seq<Process>)
    ensures multiset(Apply(started, Tick)) == multiset(started)
  {
    if started != [] {
      assert started == [started[0]] + started[1..];
    }
  }

  ghost function Order(current: Process?, run: seq<Process>): seq<Process> {
    if current == null then run else [current] + run
  }

  lemma StartsLast(current: Process?, run: seq<Process>, p: Process)
    ensures Order(current, run + [p]) == Apply(Order(current, run), Start(p))
  {
  }

  lemma TurnsAround(current: Process, run: seq<Process>)
    ensures run + [current] != []
    ensures Order((run + [current])[0], (run + [current])[1..]) == Apply(Order(current, run), Tick)
  {
    var s := run + [current];
    assert s == [s[0]] + s[1..];
  }

  class ProcessTable {
    const tree: RbTree
    const pool: ProcessPool
    const queue: Queue
    var current: Process?
    var aidCounter: u16
    /** The page directory in force. */
    var pageDir: u32
    /** The directory that the control block of a program names, by the directory of its address space. */
    var controlBlocks: map<u32, u32>

    /** The live processes by identifier. */
    ghost var pids: map<u32, Process>
    /** The processes in the run queue, in order. */
    ghost var run: seq<Process>

    constructor ()
      ensures Valid() && pids == map[] && run == [] && current == null && aidCounter == 1
      ensures fresh(tree) && fresh(tree.repr) && fresh(pool) && fresh(queue) && pool.slots == {}
    {
      tree := new RbTree();
      pool := new ProcessPool();
      queue := new Queue();
      current, aidCounter, pageDir, controlBlocks := null, 1, 0, map[];
      pids, run := map[], [];
    }

    /** The table is complete, but for the structures in `extra`, which are in use and not entered:
        tree, pool and `pids` agree, and no two processes share a structure or an identifier. */
    ghost predicate Tabled(extra: set<Process>)
      reads this`pids, tree, tree.repr, pool, pool.free, pool.slots
    {
      && tree.Valid() && pool.Valid() && Agree(tree.Map(), tree.repr, pool.slots, pool.free, pids, extra)
      && forall k :: k in pids ==> pids[k] in pool.slots && pids[k].first.PageDir?
    }

    /** The run queue holds `run`, live processes without repetition. */
    ghost predicate Queued()
      reads this`pids, this`run, queue, queue.items
    {
      queue.Valid() && QueueHolds(queue.items, run, pids.Values)
    }

    /** The control block in the address space of a program names its directory. */
    ghost predicate Recorded(p: Process)
      reads this`controlBlocks, p`first
    {
      p.first.PageDir? && p.first.paddr in controlBlocks && controlBlocks[p.first.paddr] == p.first.paddr
    }

    ghost predicate Runnable()
      reads this`controlBlocks, this`run, run
    {
      forall p :: p in run ==> Recorded(p)
    }

    /** The current process, if there is one, is live, not queued and in its own address space. */
    ghost predicate Running()
      reads this`controlBlocks, this`current, this`pageDir, this`pids, this`run, current
    {
      current != null ==>
        current in pids.Values && current !in run && Recorded(current) && current.first == PageDir(pageDir)
    }

    /** Running and queued processes are not disturbed when one more process is queued or none. */
    twostate lemma StillRunning(new p: Process, queued: bool)
      requires old(Runnable()) && old(Running()) && unchanged(this`controlBlocks) && unchanged(this`current)
      requires unchanged(this`pageDir)
      requires forall q :: q in old(run) ==> q.first == old(q.first)
      requires current != null ==> current.first == old(current.first)
      requires if queued then run == old(run) + [p] && Recorded(p) && p != current else run == old(run)
      requires forall q :: q in old(pids).Values ==> q in pids.Values
      ensures Runnable() && Running()
    {
    }

    ghost predicate Valid()
      reads this, tree, tree.repr, pool, pool.free, pool.slots, queue, queue.items, run, current
    {
      Tabled({}) && Queued() && Runnable() && Running()
    }

    /** The started processes in the order in which they get the processor: the current one, then
        the queue. */
    ghost function Started(): seq<Process>
      reads this`current, this`run
    {
      Order(current, run)
    }

    /** The next identifier that is not in use, searching from the counter with wrap-around. It
        panics only if all 65,536 are in use. */
    method NextFreeAid() returns (r: Outcome<u32>)
      requires tree.Valid()
      modifies this`aidCounter
      ensures r.Panic? <==> forall aid: u16 :: Pid(aid) in tree.Map()
      ensures r.Return? ==> FirstFree(old(aidCounter), r.value, aidCounter, tree.Map().Keys)
      ensures r.Return? ==> r.value !in tree.Map() && r.value % TWO_TO_THE_16 == 0
    {
      hide AidAfter, Pid, RbTree.Valid, RbTree.Map, FirstFree;
      var aid := aidCounter;
      ghost var steps := 0;
      AidSteps(aidCounter, 0);
      while true
        invariant steps < TWO_TO_THE_16 && aid == AidAfter(aidCounter, steps) && aidCounter == old(aidCounter)
        invariant forall i :: 0 <= i < steps ==> Pid(AidAfter(aidCounter, i)) in tree.Map()
        decreases TWO_TO_THE_16 - steps
      {
        var pid := Pid(aid);
        var node;
        ghost var path, t, depth;
        node, path, t, depth := tree.Find(pid);
        AidSteps(aidCounter, steps);
        if node == null {
          FirstFreeIs(aidCounter, steps, tree.Map().Keys);
          aidCounter := AidAfter(aid, 1);
          return Return(pid);
        }
        aid := AidAfter(aid, 1);
        steps := steps + 1;
        if aid == aidCounter {
          break;
        }
      }
      forall other: u16 ensures Pid(other) in tree.Map() {
        AidDistance(aidCounter, other);
      }
      r := Panic;
    }

    /** The process whose structure contains a tree node. */
    method ParentOf(node: RbNode) returns (p: Process)
      requires exists q :: q in pool.slots && q.rbNode == node
      ensures p in pool.slots && p.rbNode == node
    {
      p :| p in pool.slots && p.rbNode == node;
    }

    method GetProcess(aid: u16) returns (p: Process?)
      requires Tabled({})
      ensures p == if Pid(aid) in pids then pids[Pid(aid)] else null
    {
      hide Pid, SeparateNodes, RbTree.Valid, RbTree.Map;
      var node;
      ghost var path, t, depth;
      node, path, t, depth := tree.Find(Pid(aid));
      if node == null {
        return null;
      }
      p := ParentOf(node);
      OneParent(p, pids[Pid(aid)]);
    }

    lemma OneParent(p: Process, q: Process)
      requires pool.Valid() && p in pool.slots && q in pool.slots && p.rbNode == q.rbNode
      ensures p == q
    {
    }

    /** A structure from the pool is in use by nobody. */
    method NewProcess(pageLeft: bool) returns (r: Outcome<Process>)
      requires Tabled({})
      modifies pool
      ensures r.Panic? <==> old(pool.free) == [] && !pageLeft
      ensures r.Return? ==>
        var p := r.value;
        && Tabled({p}) && p in pool.slots && p !in pool.free && p.rbNode !in tree.repr && p !in pids.Values
        && old(pool.slots) <= pool.slots && tree.Map() == old(tree.Map())
        && (if old(pool.free) != [] then p == old(pool.freeList) else fresh(p) && fresh(p.rbNode) && fresh(p.queueNode))
        && forall q :: q in pool.slots && q !in old(pool.slots) ==> fresh(q) && fresh(q.queueNode)
    {
      hide Pid, SeparateNodes, AllDifferent, RbTree.Valid, RbTree.Map, ProcessPool.Valid, Agree;
      ghost var slots, free := pool.slots, pool.free;
      r := pool.Create(pageLeft);
      if r.Panic? {
        return;
      }
      ghost var p := r.value;
      NewAgrees(tree.Map(), tree.repr, slots, free, pool.slots, pool.free, pids, p);
      AgreeInside(tree.Map(), tree.repr, pool.slots, pool.free, pids, {p});
    }

    /** A structure is entered in the tree under a free identifier; the insertion always succeeds. */
    method Enter(p: Process, pid: u32)
      requires Tabled({p}) && p in pool.slots && p !in pool.free && p.rbNode !in tree.repr && p !in pids.Values
      requires p.first.PageDir? && pid !in pids && pid % TWO_TO_THE_16 == 0
      modifies this`pids, tree, tree.repr, p.rbNode
      ensures Tabled({}) && pids == old(pids)[pid := p]
    {
      hide Pid, SeparateNodes, AllDifferent, RbTree.Valid, RbTree.Map, ProcessPool.Valid, Agree;
      PoolInside();
      AgreeInside(tree.Map(), tree.repr, pool.slots, pool.free, pids, {p});
      EnterAgrees(tree.Map(), tree.repr, pool.slots, pool.free, pids, p, pid);
      var inserted;
      ghost var steps;
      inserted, steps := tree.Insert(p.rbNode, pid);
      assert inserted;
      pids := pids[pid := p];
    }

    /** A process with a new structure and a free identifier. */
    method NewLive(pid: u32, dir: u32, pageLeft: bool) returns (r: Outcome<Process>)
      requires Tabled({}) && Queued() && pid !in pids && pid % TWO_TO_THE_16 == 0
      modifies this`pids, pool, pool.Spare(), pool.SpareRbNode(), tree, tree.repr
      ensures r.Panic? <==> old(pool.free) == [] && !pageLeft
      ensures r.Return? ==>
        var p := r.value;
        && Tabled({}) && Queued() && p !in old(pids).Values && pids == old(pids)[pid := p]
        && p.first == PageDir(dir) && !p.blocked && (p.queueNode in old(pool.SpareQueueNode()) || fresh(p.queueNode))
      ensures forall q :: q in old(pids).Values ==> q.first == old(q.first)
    {
      hide Pid, SeparateNodes, AllDifferent, RbTree.Valid, RbTree.Map, ProcessPool.Valid, Agree, QueueHolds,
        Queue.Valid, Tabled;
      TabledInside({});
      r := NewProcess(pageLeft);
      if r.Panic? {
        return;
      }
      Admit(r.value, pid, dir);
    }

    /** A new structure gets its fields and its place in the tree. */
    method Admit(p: Process, pid: u32, dir: u32)
      requires Tabled({p}) && Queued() && p in pool.slots && p !in pool.free && p.rbNode !in tree.repr
      requires p !in pids.Values
      requires pid !in pids && pid % TWO_TO_THE_16 == 0
      modifies this`pids, p`first, p`blocked, tree, tree.repr, p.rbNode
      ensures Tabled({}) && Queued() && pids == old(pids)[pid := p] && p.first == PageDir(dir) && !p.blocked
    {
      hide Pid, SeparateNodes, AllDifferent, RbTree.Valid, RbTree.Map, ProcessPool.Valid, Agree, QueueHolds,
        Queue.Valid, Tabled;
      SetUp(p, dir);
      Enter(p, pid);
      QueuedStill(old(pids), pid, p);
    }

    lemma TabledInside(extra: set<Process>)
      requires Tabled(extra)
      ensures pool.Valid() && tree.Valid() && tree.Map().Keys == pids.Keys
      ensures pool.free != [] ==> pool.freeList == pool.free[0]
    {
      hide SeparateNodes, AllDifferent, RbTree.Valid, RbTree.Map;
    }

    lemma QueuedInside()
      requires Queued()
      ensures forall q :: q in run ==> q in pids.Values
    {
      QueueInside(queue.items, run, pids.Values);
    }

    lemma QueuedStill(was: map<u32, Process>, pid: u32, p: Process)
      requires queue.Valid() && QueueHolds(queue.items, run, was.Values) && pid !in was && pids == was[pid := p]
      ensures Queued()
    {
      hide AllDifferent, Queue.Valid, QueueHolds;
      MoreLive(was, pid, p);
      QueueLive(queue.items, run, was.Values, pids.Values);
    }

    /** The fields of a new structure. */
    method SetUp(p: Process, dir: u32)
      requires Tabled({p}) && p in pool.slots && p !in pool.free
      modifies p`first, p`blocked
      ensures Tabled({p}) && p.first == PageDir(dir) && !p.blocked
    {
      hide Pid, SeparateNodes, AllDifferent, RbTree.Valid, RbTree.Map, ProcessPool.Valid, Agree;
      p.first := PageDir(dir);
      p.blocked := false;
    }

    /** The process-creation part of `exec_sun`, for an address space that was set up: its control
        block names the directory. It panics exactly if all identifiers are taken, or structures and
        pages have run out. */
    method Exec(dir: u32, pageLeft: bool) returns (r: Outcome<u32>, ghost p: Process?)
      requires Valid()
      modifies this`aidCounter, this`pids, this`run, this`controlBlocks, pool, pool.Spare(), pool.SpareRbNode(),
        pool.SpareQueueNode(),
        tree, tree.repr, queue, queue.items
      ensures r.Panic? <==> (forall aid: u16 :: Pid(aid) in old(pids)) || (old(pool.free) == [] && !pageLeft)
      ensures r.Return? ==> Valid() && p != null && p.first == PageDir(dir) && !p.blocked
      ensures r.Return? ==> FirstFree(old(aidCounter), r.value, aidCounter, old(pids).Keys)
      ensures r.Return? ==> r.value !in old(pids) && p !in old(pids).Values && pids == old(pids)[r.value := p]
      ensures r.Return? ==> Started() == Apply(old(Started()), Start(p))
    {
      hide Pid, SeparateNodes, AllDifferent, RbTree.Valid, RbTree.Map, ProcessPool.Valid, Agree, QueueHolds,
        Queue.Valid, AidAfter, Tabled, FirstFree, Queued, Order, Apply;
      p := null;
      TabledInside({});
      controlBlocks := controlBlocks[dir := dir];
      r := NextFreeAid();
      if r.Panic? {
        return;
      }
      var q := Launch(r.value, dir, pageLeft);
      if q.Panic? {
        return Panic, null;
      }
      p := q.value;
    }

    method Launch(pid: u32, dir: u32, pageLeft: bool) returns (r: Outcome<Process>)
      requires Valid() && pid !in pids && pid % TWO_TO_THE_16 == 0 && dir in controlBlocks && controlBlocks[dir] == dir
      modifies this`pids, this`run, pool, pool.Spare(), pool.SpareRbNode(), pool.SpareQueueNode(), tree, tree.repr,
        queue, queue.items
      ensures r.Panic? <==> old(pool.free) == [] && !pageLeft
      ensures r.Return? ==>
        var p := r.value;
        && Valid() && p !in old(pids).Values && pids == old(pids)[pid := p] && p.first == PageDir(dir) && !p.blocked
        && Started() == Apply(old(Started()), Start(p))
    {
      hide Pid, SeparateNodes, AllDifferent, RbTree.Valid, RbTree.Map, ProcessPool.Valid, Agree, QueueHolds,
        Queue.Valid, Tabled, Queued, Order, Apply, Runnable, Running, Recorded;
      QueuedInside();
      CurrentInside();
      r := NewLive(pid, dir, pageLeft);
      if r.Panic? {
        return;
      }
      var p := r.value;
      MoreLive(old(pids), pid, p);
      Enqueue(p);
      StartsLast(current, old(run), p);
      NowRecorded(p);
      StillRunning(p, true);
    }

    lemma CurrentInside()
      requires Running()
      ensures current != null ==> current in pids.Values && current !in run
    {
    }

    lemma NowRecorded(p: Process)
      requires p.first.PageDir? && p.first.paddr in controlBlocks && controlBlocks[p.first.paddr] == p.first.paddr
      ensures Recorded(p)
    {
    }

    /** A live process joins the run queue. */
    method Enqueue(p: Process)
      requires Tabled({}) && Queued() && p in pids.Values && p !in run
      modifies this`run, queue, queue.items, p.queueNode
      ensures Tabled({}) && Queued() && run == old(run) + [p] && unchanged(this`pids) && unchanged(this`current)
    {
      hide Pid, SeparateNodes, AllDifferent, RbTree.Valid, RbTree.Map, ProcessPool.Valid, Agree, QueueHolds,
        Queue.Valid;
      PoolInside();
      AgreeInside(tree.Map(), tree.repr, pool.slots, pool.free, pids, {});
      QueueMore(queue.items, run, pids.Values, p, pool.slots);
      assert pids.Values + {p} == pids.Values;
      queue.Add(p.queueNode);
      run := run + [p];
    }

    /** `syscall_register_process`: the structure is taken before the identifier. */
    method Register(dir: u32, pageLeft: bool) returns (r: Outcome<u32>, ghost p: Process?)
      requires Valid()
      modifies this`aidCounter, this`pids, pool, pool.Spare(), pool.SpareRbNode(), tree, tree.repr
      ensures r.Panic? <==> (forall aid: u16 :: Pid(aid) in old(pids)) || (old(pool.free) == [] && !pageLeft)
      ensures r.Return? ==>
        Valid() && p != null && p.first == PageDir(dir) && !p.blocked && unchanged(this`run) && unchanged(this`current)
      ensures r.Return? ==> FirstFree(old(aidCounter), r.value, aidCounter, old(pids).Keys)
      ensures r.Return? ==> r.value !in old(pids) && p !in old(pids).Values && pids == old(pids)[r.value := p]
    {
      hide Pid, SeparateNodes, AllDifferent, RbTree.Valid, RbTree.Map, ProcessPool.Valid, Agree, QueueHolds,
        Queue.Valid, AidAfter, Tabled, FirstFree, Queued, Runnable, Running, Recorded;
      p := null;
      TabledInside({});
      QueuedInside();
      CurrentInside();
      var q := NewProcess(pageLeft);
      if q.Panic? {
        return Panic, null;
      }
      TabledInside({q.value});
      r := NextFreeAid();
      if r.Panic? {
        return;
      }
      Admit(q.value, r.value, dir);
      MoreLive(old(pids), r.value, q.value);
      p := q.value;
      StillRunning(q.value, false);
    }

    /** The process whose structure contains a queue node. */
    method ParentOfQueued(node: QueueNode) returns (p: Process)
      requires exists q :: q in pool.slots && q.queueNode == node
      ensures p in pool.slots && p.queueNode == node
    {
      p :| p in pool.slots && p.queueNode == node;
    }

    lemma OneQueued(p: Process, q: Process)
      requires pool.Valid() && p in pool.slots && q in pool.slots && p.queueNode == q.queueNode
      ensures p == q
    {
    }

    /** The word in the control block of the address space in force. */
    method ControlBlock() returns (paddr: u32)
      requires pageDir in controlBlocks
      ensures paddr == controlBlocks[pageDir]
    {
      paddr := controlBlocks[pageDir];
    }

    /** Dispatches the process at the head of the run queue; panics if there is none. The control
        block it then finds is that of the process. */
    method Schedule() returns (r: Outcome<()>)
      requires Tabled({}) && Queued() && Runnable()
      modifies this`current, this`pageDir, this`run, queue
      ensures r.Panic? <==> old(run) == []
      ensures r.Return? ==>
        && Tabled({}) && Queued() && Runnable() && Running() && current == old(run)[0] && run == old(run)[1..]
    {
      hide Pid, SeparateNodes, AllDifferent, RbTree.Valid, RbTree.Map, ProcessPool.Valid, Agree, QueueHolds,
        Queue.Valid;
      AgreeInside(tree.Map(), tree.repr, pool.slots, pool.free, pids, {});
      HeldLength(queue.items, run, pids.Values);
      if run != [] { QueueLess(queue.items, run, pids.Values); }
      ghost var was := run;
      var node := queue.Poll();
      if node == null {
        current := null;
        return Panic;
      }
      var p := ParentOfQueued(node);
      OneQueued(p, was[0]);
      assert Recorded(p);
      current := p;
      run := run[1..];
      pageDir := current.first.paddr;
      var paddr := ControlBlock();
      assert paddr == current.first.paddr;
      r := Return(());
    }

    ghost function CurrentLink(): set<QueueNode>
      reads this`current
    {
      if current == null then {} else {current.queueNode}
    }

    /** The timer interrupt: in user mode the current process goes to the end of the queue and the
        next one is dispatched. The assertions on the control block hold. */
    method Preempt(userMode: bool) returns (r: Outcome<()>)
      requires Valid() && (userMode ==> current != null)
      modifies this`current, this`pageDir, this`run, queue, queue.items, CurrentLink()
      ensures r.Return? && Valid() && unchanged(this`pids)
      ensures Started() == if userMode then Apply(old(Started()), Tick) else old(Started())
      ensures userMode ==> current != null && current.first == PageDir(pageDir)
    {
      hide Pid, SeparateNodes, AllDifferent, RbTree.Valid, RbTree.Map, ProcessPool.Valid, Agree, QueueHolds,
        Queue.Valid, Tabled, Queued, Apply, Order;
      if userMode {
        var paddr := ControlBlock();
        assert paddr == current.first.paddr;
        TurnsAround(current, run);
        Enqueue(current);
        r := Schedule();
      } else {
        r := Return(());
      }
    }

    /** The live process of an address space. */
    ghost function Named(aid: u16): set<Process>
      reads this`pids
    {
      if Pid(aid) in pids then {pids[Pid(aid)]} else {}
    }

    /** The identifiers in the tree. */
    ghost function TreeKeys(): set<u32>
      reads tree, tree.repr
    {
      if tree.Valid() then tree.Map().Keys else {}
    }

    /** `syscall_delete_process` on tree and pool: the process is found by its address space, and the tree
        node by the whole identifier. Queue, tree and pool fit together afterwards if and only if there
        is no such process, or it was named without a thread part and was neither running nor queued. */
    method Delete(pid: u32) returns (error: u32)
      requires Valid()
      modifies this`pids, tree, tree.repr, pool`freeList, pool`free, Named(AidPart(pid))
      ensures error == 1 && unchanged(this`run) && unchanged(this`current)
      ensures var key := pid - pid % 0x1_0000;
        if key !in old(pids) then Valid() && pids == old(pids) && pool.free == old(pool.free)
        else
          && pids == old(pids) - {pid} && TreeKeys() == old(TreeKeys()) - {pid}
          && pool.free == [old(pids)[key]] + old(pool.free)
          && (Valid() <==> pid == key && old(pids)[key] !in run && old(pids)[key] != current)
    {
      hide Pid, AidPart, SeparateNodes, AllDifferent, RbTree.Valid, RbTree.Map, ProcessPool.Valid, Agree, QueueHolds,
        Queue.Valid, Tabled, TreeKeys, Queued, Runnable, Running, ProcessTable.Valid;
      AllTabled();
      WholePart(pid);
      ghost var key := Pid(AidPart(pid));
      var proc := GetProcess(AidPart(pid));
      if proc != null {
        if pid in pids { WholeKeys(pid); }
        TakeOut(pid, key, proc);
        if pid != key {
          NotTabled();
        } else if proc !in run && proc != current {
          StillInOrder(key);
        } else {
          NotLive(old(pids), key);
          NotQueued(proc);
        }
      }
      error := PID_NOT_FOUND;
    }

    /** Live processes have identifiers without a thread part. */
    lemma WholeKeys(pid: u32)
      requires Tabled({}) && pid in pids
      ensures pid == Pid(AidPart(pid))
    {
      hide SeparateNodes, AllDifferent, RbTree.Valid, RbTree.Map, ProcessPool.Valid;
    }

    lemma AllTabled()
      requires Valid()
      ensures Tabled({}) && tree.Valid() && pool.Valid()
    {
      hide RbTree.Valid, RbTree.Map, ProcessPool.Valid, Agree;
    }

    lemma NotTabled()
      requires !Tabled({})
      ensures !Valid()
    {
      hide Tabled;
    }

    /** A process that is neither queued nor running can leave the table. */
    twostate lemma StillInOrder(key: u32)
      requires old(Valid()) && key in old(pids) && pids == old(pids) - {key} && Tabled({})
      requires unchanged(this`run) && unchanged(this`current) && unchanged(this`pageDir)
      requires unchanged(this`controlBlocks) && unchanged(queue) && unchanged(queue.items)
      requires old(pids)[key] !in run && old(pids)[key] != current
      requires forall q :: q in run || q == current ==> q.first == old(q.first)
      ensures Valid()
    {
      hide Pid, Tabled, QueueHolds;
      QueueInside(queue.items, run, old(pids).Values);
      LessLive(old(pids), key);
      QueueLive(queue.items, run, old(pids).Values, pids.Values);
    }

    /** A process that is queued or running must be live. */
    lemma NotQueued(proc: Process)
      requires proc !in pids.Values && (proc in run || proc == current)
      ensures !Valid()
    {
      hide Tabled, Runnable, Queue.Valid;
      if Valid() { QueueInside(queue.items, run, pids.Values); }
    }

    lemma NotLive(was: map<u32, Process>, key: u32)
      requires key in was && pids == was - {key} && forall k, l :: k in was && l in was && was[k] == was[l] ==> k == l
      ensures was[key] !in pids.Values
    {
    }

    /** Takes the node with the identifier `pid` out of the tree and gives the structure back. */
    method TakeOut(pid: u32, ghost key: u32, proc: Process)
      requires Tabled({}) && key in pids && proc == pids[key] && (pid in pids ==> pid == key)
      modifies this`pids, tree, tree.repr, pool`freeList, pool`free, proc`first
      ensures pids == old(pids) - {pid} && TreeKeys() == old(TreeKeys()) - {pid}
      ensures pool.free == [proc] + old(pool.free) && (Tabled({}) <==> pid == key)
      ensures forall k, l :: k in old(pids) && l in old(pids) && old(pids)[k] == old(pids)[l] ==> k == l
    {
      hide Pid, SeparateNodes, AllDifferent, RbTree.Valid, RbTree.Map, ProcessPool.Valid, Agree, Tabled, TreeKeys;
      TabledBefore(key, proc);
      ghost var m, repr, free, was := tree.Map(), tree.repr, pool.free, pids;
      AgreeKeys(m, repr, pool.slots, free, was);
      var node;
      ghost var steps;
      KeysAre(m);
      node, steps := tree.Remove(pid);
      ghost var m' := if pid == key then m - {pid} else m;
      assert tree.Map() == m' && (pid == key ==> tree.repr == repr - {proc.rbNode});
      pool.Destroy(proc);
      pids := pids - {pid};
      TakenOut(m, m', repr, free, was, pid, key, proc);
    }

    lemma TakenOut(m: map<u32, RbNode>, m': map<u32, RbNode>, repr: set<RbNode>, free: seq<Process>,
                   was: map<u32, Process>, pid: u32, key: u32, proc: Process)
      requires pool.Valid() && tree.Valid() && SeparateNodes(pool.slots) && Agree(m, repr, pool.slots, free, was, {})
      requires key in was && was[key] == proc && pids == was - {pid} && pool.free == [proc] + free
      requires pid in was ==> pid == key
      requires tree.Map() == m' == (if pid == key then m - {pid} else m)
      requires pid == key ==> tree.repr == repr - {proc.rbNode}
      requires forall k :: k in was && k != key ==> was[k].first.PageDir?
      ensures TreeKeys() == m.Keys - {pid} && (Tabled({}) <==> pid == key)
    {
      hide Pid, SeparateNodes, AllDifferent, RbTree.Valid, RbTree.Map, ProcessPool.Valid, Agree, Tabled, TreeKeys;
      AgreeKeys(m, repr, pool.slots, free, was);
      KeysAre(m');
      KeysLess(m, m', pid, key);
      if pid == key {
        TabledAfter(m, repr, free, was, pid, proc);
      } else {
        FreeNotLive(key);
      }
    }

    lemma KeysAre(m: map<u32, RbNode>)
      requires tree.Valid() && tree.Map() == m
      ensures TreeKeys() == m.Keys
    {
      hide RbTree.Valid, RbTree.Map;
    }

    lemma FreeNotLive(key: u32)
      requires key in pids && pids[key] in pool.free
      ensures !Tabled({})
    {
      hide RbTree.Valid, RbTree.Map, ProcessPool.Valid;
    }

    lemma TabledBefore(pid: u32, proc: Process)
      requires Tabled({}) && pid in pids && proc == pids[pid]
      ensures pool.Valid() && tree.Valid() && pid in tree.Map() && tree.Map()[pid] == proc.rbNode
      ensures proc in pool.slots && proc !in pool.free && SeparateNodes(pool.slots)
      ensures Agree(tree.Map(), tree.repr, pool.slots, pool.free, pids, {})
      ensures forall k :: k in pids && k != pid ==> pids[k].first.PageDir? && pids[k] != proc
    {
      hide Pid, SeparateNodes, AllDifferent, RbTree.Valid, RbTree.Map;
    }

    lemma TabledAfter(m: map<u32, RbNode>, repr: set<RbNode>, free: seq<Process>, was: map<u32, Process>, pid: u32,
                      proc: Process)
      requires pool.Valid() && tree.Valid() && SeparateNodes(pool.slots) && Agree(m, repr, pool.slots, free, was, {})
      requires pid in was && was[pid] == proc && pids == was - {pid} && pool.free == [proc] + free
      requires tree.Map() == m - {pid} && tree.repr == repr - {proc.rbNode}
      requires forall k :: k in was && k != pid ==> was[k].first.PageDir?
      ensures Tabled({})
    {
      hide Pid, SeparateNodes, AllDifferent, RbTree.Valid, RbTree.Map, ProcessPool.Valid, Agree;
      AgreeInside(m, repr, pool.slots, free, was, {});
      ReleaseAgrees(m, repr, pool.slots, free, was, pid);
    }

    lemma PoolInside()
      requires pool.Valid()
      ensures SeparateNodes(pool.slots)
    {
    }
  }

  lemma AgreeInside(m: map<u32, RbNode>, repr: set<RbNode>, slots: set<Process>, free: seq<Process>,
                    pids: map<u32, Process>, extra: set<Process>)
    requires Agree(m, repr, slots, free, pids, extra)
    ensures m.Keys == pids.Keys
    ensures forall k :: k in pids ==> pids[k] in slots && pids[k] !in free && m[k] == pids[k].rbNode
  {
  }

  lemma MoreLive(pids: map<u32, Process>, pid: u32, p: Process)
    requires pid !in pids
    ensures forall q :: q in pids[pid := p].Values <==> q in pids.Values || q == p
  {
    assert pids[pid := p][pid] == p;
    forall q | q in pids.Values ensures q in pids[pid := p].Values {
      var k :| k in pids && pids[k] == q;
      assert pids[pid := p][k] == q;
    }
  }

  lemma QueueInside(items: seq<QueueNode>, run: seq<Process>, live: set<Process>)
    requires QueueHolds(items, run, live)
    ensures AllDifferent(run) && forall q :: q in run ==> q in live
  {
  }

  lemma HeldLength(items: seq<QueueNode>, run: seq<Process>, live: set<Process>)
    requires QueueHolds(items, run, live)
    ensures |items| == |run|
  {
  }

  lemma KeysLess<V>(m: map<u32, V>, m': map<u32, V>, pid: u32, key: u32)
    requires m' == (if pid == key then m - {pid} else m) && (pid in m ==> pid == key)
    ensures m'.Keys == m.Keys - {pid} && m' == m - {pid}
  {
  }

  lemma AgreeKeys(m: map<u32, RbNode>, repr: set<RbNode>, slots: set<Process>, free: seq<Process>,
                  pids: map<u32, Process>)
    requires Agree(m, repr, slots, free, pids, {})
    ensures m.Keys == pids.Keys && forall k, l :: k in pids && l in pids && pids[k] == pids[l] ==> k == l
  {
  }

  lemma LessLive(pids: map<u32, Process>, pid: u32)
    requires pid in pids
    ensures forall q :: q in pids.Values && q != pids[pid] ==> q in (pids - {pid}).Values
  {
    forall q | q in pids.Values && q != pids[pid] ensures q in (pids - {pid}).Values {
      var k :| k in pids && pids[k] == q;
      assert k in pids - {pid} && (pids - {pid})[k] == q;
    }
  }
}
