/** Balance during deletion: a subtree that is one black node short, and the cases that move
    the shortage up or end it. */
module RbRemoval {
  import opened RbShape

  /** State of the deletion fix-up: every path through the hole counts one black node less than
      the other paths. Painting the root of `t` black, if it is red, would make up for it. */
  ghost predicate Short(path: Path, t: Tree) {
    RedBlack(PaintTree(t, Black)) && Fits(path, BlackHeight(t) + 1)
  }

  /** The sibling of a short black subtree is a node: it has black height at least 1. */
  lemma ShortHasSibling(path: Path, t: Tree)
    requires Short(path, t) && path.Step? && Shade(t) == Black
    ensures path.other.Node? && RedBlack(t)
    ensures Shade(path.other) == Black ==> path.other.item.color == Black
  {
  }

  /** A red sibling is rotated up; the new sibling is black. */
  lemma RedSiblingKeepsShort(path: Path, t: Tree, path': Path)
    requires Short(path, t) && path.Step? && Shade(t) == Black && Shade(path.other) == Red
    requires var o, d := path.other, path.d;
      path' == Step(d, Step(d, path.up, Painted(o.item, Black), Sub(o, 1 - d)), Painted(path.item, Red), Sub(o, d))
    ensures Short(path', t) && Shade(path'.other) == Black && path'.other.Node? && Depth(path') == Depth(path) + 1
    ensures InOrder(Plug(path', t)) == InOrder(Plug(path, t))
  {
    hide Plug, InOrder;
    var Step(d, up, p, o) := path;
    var near, far := Sub(o, d), Sub(o, 1 - d);
    assert RedBlack(near) && RedBlack(far) && Shade(near) == Shade(far) == Black;
    assert BlackHeight(near) == BlackHeight(far) == BlackHeight(t) + 1;
    assert Fits(up, BlackHeight(t) + 2);
    assert Fits(path'.up, BlackHeight(t) + 1);
    RedSiblingSameOrder(path, t, path');
  }

  lemma RedSiblingSameOrder(path: Path, t: Tree, path': Path)
    requires path.Step? && path.other.Node?
    requires var o, d := path.other, path.d;
      path' == Step(d, Step(d, path.up, Painted(o.item, Black), Sub(o, 1 - d)), Painted(path.item, Red), Sub(o, d))
    ensures InOrder(Plug(path', t)) == InOrder(Plug(path, t))
  {
    hide InOrder;
    var Step(d, up, p, o) := path;
    var near, far := Sub(o, d), Sub(o, 1 - d);
    RotateSameOrder(up, d, t, p, near, o.item, far, Painted(p, Red), Painted(o.item, Black));
    assert Plug(path, t) == Plug(up, Make(d, t, p, Make(d, near, o.item, far)));
    assert Plug(path', t) == Plug(up, Make(d, Make(d, t, Painted(p, Red), near), Painted(o.item, Black), far));
  }

  /** A black sibling with black children turns red; the shortage moves to the parent. */
  lemma BlackSiblingMovesShort(path: Path, t: Tree, t': Tree)
    requires Short(path, t) && path.Step? && Shade(t) == Black
    requires path.other.Node? && path.other.item.color == Black
    requires Shade(path.other.left) == Shade(path.other.right) == Black
    requires t' == Make(path.d, t, path.item, PaintTree(path.other, Red))
    ensures Short(path.up, t') && InOrder(Plug(path.up, t')) == InOrder(Plug(path, t))
  {
    var Step(d, up, p, o) := path;
    var o' := PaintTree(o, Red);
    assert RedBlack(o') && BlackHeight(o') == BlackHeight(t);
    assert InOrder(o') == InOrder(o);
    PlugSameOrder(up, Make(d, t, p, o), t');
  }

  /** A black sibling whose only red child is the near one is straightened. */
  lemma StraightenKeepsShort(path: Path, t: Tree, o': Tree)
    requires Short(path, t) && path.Step? && Shade(t) == Black && path.other.Node? && path.other.item.color == Black
    requires Shade(Sub(path.other, path.d)) == Red && Shade(Sub(path.other, 1 - path.d)) == Black
    requires var o, d := path.other, path.d; var near := Sub(o, d);
      o' == Make(1 - d, Make(1 - d, Sub(o, 1 - d), Painted(o.item, Red), Sub(near, 1 - d)), Painted(near.item, Black),
        Sub(near, d))
    ensures Short(path.(other := o'), t) && o'.item.color == Black && Shade(Sub(o', 1 - path.d)) == Red
    ensures InOrder(Plug(path.(other := o'), t)) == InOrder(Plug(path, t))
  {
    var Step(d, up, p, o) := path;
    var near, far := Sub(o, d), Sub(o, 1 - d);
    var nb, nc := Sub(near, 1 - d), Sub(near, d);
    assert RedBlack(near) && RedBlack(far) && BlackHeight(near) == BlackHeight(far) == BlackHeight(t);
    assert RedBlack(nb) && RedBlack(nc) && Shade(nb) == Shade(nc) == Black;
    var w := Make(1 - d, far, Painted(o.item, Red), nb);
    assert RedBlack(w) && BlackHeight(w) == BlackHeight(t);
    assert o == Make(1 - d, far, o.item, Make(1 - d, nb, near.item, nc));
    RotateSameOrder(Step(1 - d, up, p, t), 1 - d, far, o.item, nb, near.item, nc, Painted(o.item, Red),
      Painted(near.item, Black));
    assert Plug(path.(other := o'), t) == Plug(Step(1 - d, up, p, t), o');
    assert Plug(path, t) == Plug(Step(1 - d, up, p, t), o);
  }

  /** A black sibling with a red far child takes the parent's place, and the shortage ends. */
  lemma LiftEndsShort(path: Path, t: Tree, t': Tree)
    requires Short(path, t) && path.Step? && Shade(t) == Black && path.other.Node? && path.other.item.color == Black
    requires Shade(Sub(path.other, 1 - path.d)) == Red
    requires var Step(d, _, p, o) := path;
      t' == Make(d, Make(d, t, Painted(p, Black), Sub(o, d)), Painted(o.item, p.color), PaintTree(Sub(o, 1 - d), Black))
    ensures RedBlack(Plug(path.up, t')) && (path.up.Step? ==> Shade(Plug(path.up, t')) == Black)
    ensures InOrder(Plug(path.up, t')) == InOrder(Plug(path, t))
  {
    var Step(d, up, p, o) := path;
    var near, far := Sub(o, d), Sub(o, 1 - d);
    var far' := PaintTree(far, Black);
    assert RedBlack(near) && RedBlack(far) && BlackHeight(near) == BlackHeight(far) == BlackHeight(t);
    assert RedBlack(far') && BlackHeight(far') == BlackHeight(t) + 1;
    var p' := Make(d, t, Painted(p, Black), near);
    assert RedBlack(p') && BlackHeight(p') == BlackHeight(t) + 1;
    assert RedBlack(t') && BlackHeight(t') == BlackHeight(t) + 1 + Weight(p.color);
    FitsPlug(up, t');
    RotateSameOrder(up, d, t, p, near, o.item, far, Painted(p, Black), Painted(o.item, p.color));
    assert InOrder(far) == InOrder(far');
    var r := Make(d, p', Painted(o.item, p.color), far);
    assert InOrder(r) == InOrder(t');
    PlugSameOrder(up, r, t');
  }

  /** A balanced tree as a whole, with nothing above it, counts as short. */
  lemma WholeIsShort(w: Tree)
    requires RedBlack(w)
    ensures Short(Top, w) && Plug(Top, w) == w
  {
  }

  /** At the root, or at a red node, painting black ends the shortage. */
  lemma PaintEndsShort(path: Path, t: Tree)
    requires Short(path, t) && (path == Top || Shade(t) == Red)
    ensures RedBlack(Plug(path, PaintTree(t, Black))) && Shade(Plug(path, PaintTree(t, Black))) == Black
    ensures InOrder(Plug(path, PaintTree(t, Black))) == InOrder(Plug(path, t))
  {
    if path.Step? { FitsPlug(path, PaintTree(t, Black)); }
    PlugSameOrder(path, t, PaintTree(t, Black));
  }

  // ---------- splicing out ----------

  /** What taking out a node leaves to `remove_fix`: only if a black node went. */
  ghost predicate SpliceBalance(path: Path, s: Tree, gone: Color) {
    if gone == Black then Short(path, s)
    else RedBlack(Plug(path, s)) && Shade(Plug(path, s)) == Black
  }

  lemma BalanceMeans(path: Path, s: Tree, gone: Color)
    requires SpliceBalance(path, s, gone)
    ensures gone == Black ==> Short(path, s)
    ensures gone == Red ==> RedBlack(Plug(path, s)) && Shade(Plug(path, s)) == Black
  {
  }

  /** `s'` is `s` without one occurrence of `b`. */
  ghost predicate Drops(s: seq<Binding>, s': seq<Binding>, b: Binding) {
    exists k :: 0 <= k < |s| && s[k] == b && s' == s[..k] + s[k + 1..]
  }

  lemma DropsMiddle(u: seq<Binding>, b: Binding, v: seq<Binding>)
    ensures Drops(u + [b] + v, u + v, b)
  {
    var s := u + [b] + v;
    assert s[|u|] == b && s[..|u|] == u && s[|u| + 1..] == v;
  }

  lemma Associative(u: seq<Binding>, v: seq<Binding>, w: seq<Binding>)
    ensures u + v + w == u + (v + w)
  {
  }

  lemma PlugDrops(path: Path, t: Tree, t': Tree, b: Binding)
    requires Drops(InOrder(t), InOrder(t'), b)
    ensures Drops(InOrder(Plug(path, t)), InOrder(Plug(path, t')), b)
  {
    PlugInOrder(path, t);
    PlugInOrder(path, t');
    DropsInside(Before(path), InOrder(t), InOrder(t'), After(path), b);
  }

  lemma DropsInside(u: seq<Binding>, s: seq<Binding>, s': seq<Binding>, v: seq<Binding>, b: Binding)
    requires Drops(s, s', b)
    ensures Drops(u + s + v, u + s' + v, b)
  {
    var k :| 0 <= k < |s| && s[k] == b && s' == s[..k] + s[k + 1..];
    var w := u + s + v;
    var n := |u| + k;
    assert w[n] == b;
    assert w[..n] == u + s[..k];
    assert w[n + 1..] == s[k + 1..] + v;
    assert u + s' + v == w[..n] + w[n + 1..];
  }

  /** A node with at most one child is replaced by that child. */
  lemma SpliceChild(path: Path, t: Tree, d: Dir)
    requires RedBlack(Plug(path, t)) && Shade(Plug(path, t)) == Black && t.Node? && Sub(t, 1 - d) == Leaf
    ensures SpliceBalance(path, Sub(t, d), t.item.color)
    ensures Drops(InOrder(Plug(path, t)), InOrder(Plug(path, Sub(t, d))), Entry(t.item))
  {
    hide Plug, Fits, RedBlack, InOrder, Drops, SpliceBalance, BlackHeight;
    PlugFits(path, t);
    ChildBalance(path, t, d);
    ChildDrops(t, d);
    PlugDrops(path, t, Sub(t, d), Entry(t.item));
  }

  /** A child with one real subtree: that subtree is a red leaf, or there is none. */
  lemma ChildBalance(path: Path, t: Tree, d: Dir)
    requires RedBlack(t) && Fits(path, BlackHeight(t)) && (Shade(t) == Red ==> path.Step? && path.item.color == Black)
    requires t.Node? && Sub(t, 1 - d) == Leaf
    ensures SpliceBalance(path, Sub(t, d), t.item.color)
  {
    hide Plug, Fits;
    var s := Sub(t, d);
    if t.item.color == Red {
      assert s == Leaf;
      FitsPlug(path, s);
    }
  }

  lemma ChildDrops(t: Tree, d: Dir)
    requires t.Node? && Sub(t, 1 - d) == Leaf
    ensures Drops(InOrder(t), InOrder(Sub(t, d)), Entry(t.item))
  {
    assert InOrder(t)[|InOrder(t.left)|] == Entry(t.item);
  }

  /** Colours and black heights of a path do not depend on which node object is where. */
  lemma {:induction false} FitsOtherNode(inner: Path, d: Dir, up: Path, x: Item, y: Item, other: Tree, b: nat)
    requires x.color == y.color
    ensures Fits(Compose(inner, Step(d, up, x, other)), b) <==> Fits(Compose(inner, Step(d, up, y, other)), b)
    decreases inner
  {
    match inner
    case Top =>
    case Step(_, up', item, other') => FitsOtherNode(up', d, up, x, y, other, b + Weight(item.color));
  }

  /** A node with two children is replaced by its successor `y`, the leftmost node of the right
      subtree, whose place goes to its right child `s`. */
  lemma SpliceSuccessor(path: Path, l: Tree, x: Item, inner: Path, y: Item, s: Tree)
    requires var w := Plug(path, Node(l, x, Plug(inner, Node(Leaf, y, s))));
      RedBlack(w) && Shade(w) == Black
    ensures SpliceBalance(Compose(inner, Step(RIGHT, path, y.(color := x.color), l)), s, y.color)
  {
    var outer := Step(RIGHT, path, x, l);
    var t := Node(Leaf, y, s);
    PlugCompose(inner, outer, t);
    assert Plug(outer, Plug(inner, t)) == Plug(path, Node(l, x, Plug(inner, t)));
    PlugFits(Compose(inner, outer), t);
    var path' := Compose(inner, Step(RIGHT, path, Painted(y, x.color), l));
    FitsOtherNode(inner, RIGHT, path, x, Painted(y, x.color), l, BlackHeight(t));
    if y.color == Red {
      assert s == Leaf;
      assert path'.Step?;
      FitsPlug(path', s);
    }
  }

  /** The leftmost node of a subtree comes first. */
  lemma SuccessorFirst(inner: Path, y: Item, s: Tree)
    requires Before(inner) == []
    ensures InOrder(Plug(inner, Node(Leaf, y, s))) == [Entry(y)] + InOrder(Plug(inner, s))
  {
    hide Plug, InOrder, Before, After;
    PlugInOrder(inner, Node(Leaf, y, s));
    PlugInOrder(inner, s);
    MakeInOrder(LEFT, Leaf, y, s);
    LeafInOrder();
    assert InOrder(Node(Leaf, y, s)) == [Entry(y)] + InOrder(s);
    Associative([Entry(y)], InOrder(s), After(inner));
  }

  lemma SuccessorDrops(path: Path, l: Tree, x: Item, inner: Path, y: Item, s: Tree)
    requires Before(inner) == []
    ensures Drops(InOrder(Plug(path, Node(l, x, Plug(inner, Node(Leaf, y, s))))),
                  InOrder(Plug(path, Node(l, Painted(y, x.color), Plug(inner, s)))), Entry(x))
  {
    hide Plug, Before;
    var r, r' := Plug(inner, Node(Leaf, y, s)), Plug(inner, s);
    SuccessorFirst(inner, y, s);
    SwapDrops(l, x, r, Painted(y, x.color), r');
    PlugDrops(path, Node(l, x, r), Node(l, Painted(y, x.color), r'), Entry(x));
  }

  lemma SwapDrops(l: Tree, x: Item, r: Tree, y: Item, r': Tree)
    requires InOrder(r) == [Entry(y)] + InOrder(r')
    ensures Drops(InOrder(Node(l, x, r)), InOrder(Node(l, y, r')), Entry(x))
  {
    Associative(InOrder(l), [Entry(y)], InOrder(r'));
    DropsMiddle(InOrder(l), Entry(x), InOrder(r));
  }

  /** The successor takes over: the nodes that are left are the old ones but for `x`. */
  lemma SuccessorNodes(path: Path, l: Tree, x: Item, inner: Path, y: Item, y': Item, s: Tree)
    requires Separate(Plug(path, Node(l, x, Plug(inner, Node(Leaf, y, s))))) && y'.node == y.node
    ensures var w, w' := Plug(path, Node(l, x, Plug(inner, Node(Leaf, y, s)))), Plug(path, Node(l, y', Plug(inner, s)));
      Nodes(w') == Nodes(w) - {x.node}
  {
    var t, r := Node(Leaf, y, s), Plug(inner, s);
    PlugSeparate(path, Node(l, x, Plug(inner, t)));
    PlugSeparate(path, Node(l, y', r));
    PlugSeparate(inner, t);
    PlugSeparate(inner, s);
  }

  /** All that holds of the tree in which the successor `y`, found by going down `inner` from
      the right child, has taken over from `x`. */
  lemma SuccessorPlan(path: Path, l: Tree, x: Item, inner: Path, y: Item, s: Tree)
    requires Before(inner) == []
    requires var w := Plug(path, Node(l, x, Plug(inner,
               Node(Leaf, y, s)))); RedBlack(w) && Shade(w) == Black && Separate(w)
    ensures var w, y' := Plug(path, Node(l, x, Plug(inner, Node(Leaf, y, s)))), Painted(y, x.color);
      var w', path' := Plug(path, Node(l, y', Plug(inner, s))), Compose(inner, Step(RIGHT, path, y', l));
      && w' == Plug(path', s) && SpliceBalance(path', s, y.color)
      && Drops(InOrder(w), InOrder(w'), Entry(x))
      && Nodes(w') == Nodes(w) - {x.node}
      && path'.Step? && path'.item.node == if inner == Top then y.node else inner.item.node
  {
    var y' := Painted(y, x.color);
    SpliceSuccessor(path, l, x, inner, y, s);
    SuccessorDrops(path, l, x, inner, y, s);
    ComposeRight(inner, path, l, y', s);
    SuccessorNodes(path, l, x, inner, y, y', s);
  }
}
