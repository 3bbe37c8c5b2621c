/** The run queue (src/process/queue.c): a first-in first-out list linked through nodes that are
    part of the queued objects. */
module Queues {
  import opened Words

  /** The link that a queued object contains. */
  class QueueNode {
    var next: QueueNode?

    constructor () {
      next := null;
    }
  }

  /** Node `k` of a list, or null behind its end. */
  ghost function NodeAt(items: seq<QueueNode>, k: nat): QueueNode? {
    if k < |items| then items[k] else null
  }

  ghost predicate Different(items: seq<QueueNode>) {
    forall i, j :: 0 <= i < j < |items| ==> items[i] != items[j]
  }

  class Queue {
    var head: QueueNode?
    var tail: QueueNode?
    var count: u32
    ghost var items: seq<QueueNode>

    /** The links spell out `items`. The link of the last node counts too: it ends the list. */
    ghost predicate Valid()
      reads this, items
    {
      && Different(items) && head == NodeAt(items, 0) && count == Wrap32(|items|)
      && tail == (if items == [] then null else items[|items| - 1])
      && forall k :: 0 <= k < |items| ==> items[k].next == NodeAt(items, k + 1)
    }

    constructor ()
      ensures Valid() && items == []
    {
      head, tail, count, items := null, null, 0, [];
    }

    /** Appends a node that is not queued. */
    method Add(node: QueueNode)
      requires Valid() && node !in items
      modifies this, items, node
      ensures Valid() && items == old(items) + [node]
    {
      hide Wrap32, Add32;
      CountUp(|items|);
      if tail != null {
        tail.next := node;
      } else {
        head := node;
      }

      count := Add32(count, 1);
      node.next := null;
      tail := node;
      items := items + [node];
    }

    /** Takes the node that was queued first. */
    method Poll() returns (node: QueueNode?)
      requires Valid()
      modifies this
      ensures Valid() && node == NodeAt(old(items), 0)
      ensures items == if old(items) == [] then [] else old(items)[1..]
    {
      hide Wrap32, Add32;
      node := head;
      if node == null {
        return;
      }

      CountDown(|items|);
      var next := node.next;
      head := next;
      if next == null {
        tail := null;
      }

      count := Add32(count, -1);
      ghost var was := items;
      items := items[1..];
      assert forall k :: 0 <= k < |items| ==> items[k] == was[k + 1];
    }
  }
}
