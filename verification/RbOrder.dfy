/** Key order of a tree: the in-order bindings as a finite map, and the search position of a key. */
module RbOrder {
  import opened Words
  import opened RbRemoval
  import opened RbShape

  /** The finite map from key to node object that a sorted sequence of bindings lists. */
  ghost function Bindings(s: seq<Binding>): (m: map<u32, RbNode>)
    requires Sorted(s)
    ensures forall b :: b in s ==> b.key in m && m[b.key] == b.node
    ensures forall k :: k in m ==> Binding(k, m[k]) in s
  {
    var m := map i | 0 <= i < |s| :: s[i].key := s[i].node;
    assert forall i :: 0 <= i < |s| ==> s[i].key in m && m[s[i].key] == s[i].node;
    m
  }

  lemma {:induction false} BindingsSize(s: seq<Binding>)
    requires Sorted(s)
    ensures |Bindings(s)| == |s| <= TWO_TO_THE_32
  {
    SizeOfBindings(s);
    KeysApart(s);
  }

  lemma {:induction false} SizeOfBindings(s: seq<Binding>)
    requires Sorted(s)
    ensures |Bindings(s)| == |s|
  {
    hide Bindings;
    if |s| > 0 {
      var u, b := s[..|s| - 1], s[|s| - 1];
      assert s == u + [b];
      SizeOfBindings(u);
      SameListing(u, s, b);
    } else {
      var m := Bindings(s);
      assert forall k :: k in m ==> Binding(k, m[k]) in s;
      assert m == map[];
    }
  }

  /** Increasing keys leave room below: the i-th key is at least i. */
  lemma {:induction false} KeysApart(s: seq<Binding>)
    requires Sorted(s)
    ensures |s| > 0 ==> |s| - 1 <= s[|s| - 1].key
  {
    if |s| > 1 { KeysApart(s[..|s| - 1]); }
  }

  lemma SortedInsert(u: seq<Binding>, b: Binding, v: seq<Binding>)
    requires Sorted(u + v)
    requires forall x :: x in u ==> x.key < b.key
    requires forall x :: x in v ==> b.key < x.key
    ensures Sorted(u + [b] + v) && b.key !in Bindings(u + v)
    ensures Bindings(u + [b] + v) == Bindings(u + v)[b.key := b.node]
  {
    var s, s' := u + v, u + [b] + v;
    forall i, j | 0 <= i < j < |s'| ensures s'[i].key < s'[j].key {
      if i < |u| { assert s'[i] == s[i] && s'[i] in u; }
      if j > |u| { assert s'[j] == s[j - 1] && s'[j] in v; }
      if i > |u| { assert s'[i] == s[i - 1]; }
      if j < |u| { assert s'[j] == s[j]; }
    }
    SameListing(s, s', b);
  }

  lemma SortedRemove(u: seq<Binding>, b: Binding, v: seq<Binding>)
    requires Sorted(u + [b] + v)
    ensures Sorted(u + v) && Bindings(u + v) == Bindings(u + [b] + v) - {b.key}
    ensures b.key in Bindings(u + [b] + v) && Bindings(u + [b] + v)[b.key] == b.node
  {
    var s, s' := u + v, u + [b] + v;
    forall i, j | 0 <= i < j < |s| ensures s[i].key < s[j].key {
      var i' := if i < |u| then i else i + 1;
      var j' := if j < |u| then j else j + 1;
      assert s[i] == s'[i'] && s[j] == s'[j'];
    }
    forall x | x in s ensures x.key != b.key {
      var i :| 0 <= i < |s| && s[i] == x;
      var i' := if i < |u| then i else i + 1;
      assert s'[i'] == x && s'[|u|] == b;
    }
    assert b in s';
    SameListing(s, s', b);
  }

  /** `t` lists `s` and `b` besides. */
  lemma SameListing(s: seq<Binding>, s': seq<Binding>, b: Binding)
    requires Sorted(s) && Sorted(s')
    requires forall x :: x in s ==> x.key != b.key
    requires forall x :: x in s' <==> x in s || x == b
    ensures b.key !in Bindings(s)
    ensures Bindings(s') == Bindings(s)[b.key := b.node]
    ensures Bindings(s) == Bindings(s') - {b.key}
  {
    hide Bindings, Sorted;
    var m, m' := Bindings(s), Bindings(s');
    assert b in s';
    forall k ensures k in m' <==> k in m || k == b.key {
      if k in m' { assert Binding(k, m'[k]) in s'; }
      if k in m { assert Binding(k, m[k]) in s; assert Binding(k, m[k]) in s'; }
    }
    forall k | k in m ensures k in m' && m'[k] == m[k] {
      assert Binding(k, m[k]) in s;
      assert Binding(k, m[k]) in s';
    }
  }

  /** A search for `key` that has gone down `path` is still on the right way. */
  ghost predicate Brackets(path: Path, key: u32) {
    && (forall x :: x in Before(path) ==> x.key < key)
    && (forall x :: x in After(path) ==> key < x.key)
  }

  lemma TopBrackets(t: Tree, key: u32)
    ensures Plug(Top, t) == t && Brackets(Top, key)
  {
  }

  lemma SortedAround(u: seq<Binding>, b: Binding, v: seq<Binding>)
    requires Sorted(u + [b] + v)
    ensures forall x :: x in u ==> x.key < b.key
    ensures forall x :: x in v ==> b.key < x.key
  {
    var s := u + [b] + v;
    assert s[|u|] == b;
    forall x | x in u ensures x.key < b.key {
      var i :| 0 <= i < |u| && u[i] == x;
      assert s[i] == x;
    }
    forall x | x in v ensures b.key < x.key {
      var i :| 0 <= i < |v| && v[i] == x;
      assert s[|u| + 1 + i] == x;
    }
  }

  /** One step of the search, towards the side where the key belongs. */
  lemma Descend(path: Path, t: Tree, key: u32, dir: Dir)
    requires t.Node? && t.item.key != key && dir == if key > t.item.key then RIGHT else LEFT
    requires Brackets(path, key) && Sorted(InOrder(Plug(path, t)))
    ensures var path' := Step(dir, path, t.item, Sub(t, 1 - dir));
      Plug(path', Sub(t, dir)) == Plug(path, t) && Brackets(path', key)
  {
    StepPlug(path, t, dir);
    SplitAtRoot(path, t);
    StepBrackets(path, t, key, dir);
  }

  lemma SplitAtRoot(path: Path, t: Tree)
    requires t.Node? && Sorted(InOrder(Plug(path, t)))
    ensures forall x :: x in InOrder(t.left) ==> x.key < t.item.key
    ensures forall x :: x in InOrder(t.right) ==> t.item.key < x.key
  {
    hide Sorted, InOrder, Plug, Before, After;
    PlugInOrder(path, t);
    MakeInOrder(LEFT, t.left, t.item, t.right);
    var u, v := Before(path) + InOrder(t.left), InOrder(t.right) + After(path);
    assert InOrder(Plug(path, t)) == u + [Entry(t.item)] + v;
    SortedAround(u, Entry(t.item), v);
    assert forall x :: x in InOrder(t.left) ==> x in u;
    assert forall x :: x in InOrder(t.right) ==> x in v;
  }

  lemma StepBrackets(path: Path, t: Tree, key: u32, dir: Dir)
    requires t.Node? && t.item.key != key && dir == if key > t.item.key then RIGHT else LEFT
    requires Brackets(path, key)
    requires forall x :: x in InOrder(t.left) ==> x.key < t.item.key
    requires forall x :: x in InOrder(t.right) ==> t.item.key < x.key
    ensures Brackets(Step(dir, path, t.item, Sub(t, 1 - dir)), key)
  {
    hide InOrder;
  }

  lemma StepPlug(path: Path, t: Tree, dir: Dir)
    requires t.Node?
    ensures Plug(Step(dir, path, t.item, Sub(t, 1 - dir)), Sub(t, dir)) == Plug(path, t)
  {
  }

  /** The search ends at the node with the key ... */
  lemma Found(path: Path, t: Tree)
    requires t.Node? && Sorted(InOrder(Plug(path, t)))
    ensures t.item.key in Bindings(InOrder(Plug(path, t)))
    ensures Bindings(InOrder(Plug(path, t)))[t.item.key] == t.item.node
  {
    PlugInOrder(path, t);
    var s := InOrder(Plug(path, t));
    assert s[|Before(path)| + |InOrder(t.left)|] == Entry(t.item);
    assert Entry(t.item) in s;
  }

  lemma LeafOrder(path: Path, item: Item)
    ensures InOrder(Plug(path, Leaf)) == Before(path) + After(path)
    ensures InOrder(Plug(path, Node(Leaf, item, Leaf))) == Before(path) + [Entry(item)] + After(path)
  {
    hide Plug, Before, After;
    PlugInOrder(path, Leaf);
    PlugInOrder(path, Node(Leaf, item, Leaf));
    assert InOrder(Leaf) == [] && InOrder(Node(Leaf, item, Leaf)) == [Entry(item)];
  }

  /** ... or at a leaf, and then the key is in no node. */
  lemma NotFound(path: Path, key: u32)
    requires Brackets(path, key) && Sorted(InOrder(Plug(path, Leaf)))
    ensures key !in Bindings(InOrder(Plug(path, Leaf)))
  {
    hide Bindings, Sorted, Plug, InOrder;
    var s := InOrder(Plug(path, Leaf));
    assert s == Before(path) + After(path) by { PlugInOrder(path, Leaf); LeafInOrder(); }
    assert forall x :: x in s ==> x.key != key;
  }

  /** A new node at the end of the search. */
  lemma InsertBinding(path: Path, item: Item)
    requires Brackets(path, item.key) && Sorted(InOrder(Plug(path, Leaf)))
    ensures var s, s' := InOrder(Plug(path, Leaf)), InOrder(Plug(path, Node(Leaf, item, Leaf)));
      Sorted(s') && |s'| == |s| + 1 && Bindings(s') == Bindings(s)[item.key := item.node]
  {
    hide Bindings, Sorted, Plug, InOrder;
    LeafOrder(path, item);
    SortedInsert(Before(path), Entry(item), After(path));
  }

  /** Dropping a binding removes its key from the map. */
  lemma DropBinding(s: seq<Binding>, s': seq<Binding>, b: Binding)
    requires Sorted(s) && Drops(s, s', b)
    ensures Sorted(s') && |s'| == |s| - 1
    ensures b.key in Bindings(s) && Bindings(s)[b.key] == b.node && Bindings(s') == Bindings(s) - {b.key}
  {
    hide Bindings, Sorted;
    var k :| 0 <= k < |s| && s[k] == b && s' == s[..k] + s[k + 1..];
    assert s == s[..k] + [b] + s[k + 1..];
    SortedRemove(s[..k], b, s[k + 1..]);
  }
}
