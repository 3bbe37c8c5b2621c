/** The kernel's red-black tree (src/process/rb_tree.c): linked nodes updated in place. */
module RbTrees {
  import opened Words
  import opened RbShape
  import opened RbOrder
  import opened RbRemoval
  import opened RbStore

  class RbTree {
    var root: RbNode
    const nil: RbNode
    var count: u32

    /** The tree that the links spell out, and the node objects involved. */
    ghost var shape: Tree
    ghost var repr: set<RbNode>

    ghost function Snapshot(): (h: Store)
      reads this`repr, repr
    {
      map n <- repr :: Cell(n.parent, n.child, n.key, n.color)
    }

    /** The links in memory spell out `shape`. */
    ghost predicate Shown()
      reads this`root, this`shape, this`repr, repr
    {
      repr == Nodes(shape) + {nil} && Represents(Snapshot(), nil, root, shape)
    }

    constructor ()
      ensures Valid() && fresh(repr) && Map() == map[] && count == 0
    {
      var n := new RbNode();
      nil := n;
      root := n;
      count := 0;
      shape := Leaf;
      repr := {n};
      new;
      nil.child := Links(nil, nil);
      nil.color := Black;
    }

    function Direction(node: RbNode): (d: Dir)
      requires node.parent != null
      reads node, node.parent
    {
      if node == node.parent.child.left then LEFT else RIGHT
    }

    /** The writes of `rotate_subtree`, field by field: `y` is the child that goes up, `inner` its
        subtree that changes sides, and `up` the parent. */
    method RotateLinks(node: RbNode, dir: Dir, ghost y: RbNode, ghost inner: RbNode, ghost up: RbNode)
      requires node in repr && y in repr && node != y && node.child.At(1 - dir) == y && y.child.At(dir) == inner
      requires node.parent == up && node != nil && y != nil
      requires inner != nil ==> inner in repr && inner != node && inner != y
      requires up != nil ==> up in repr && up != node && up != y && up != inner
      modifies this`root, repr
      ensures root == if up == nil then y else old(root)
      ensures forall n :: n in repr ==>
                (n.key, n.color) == old((n.key, n.color))
                && n.parent == (if n == node then y else if n == y then up
                                else if n == inner && n != nil then node else old(n.parent))
                && n.child == if n == node then old(n.child).With(1 - dir, inner)
                              else if n == y then old(n.child).With(dir, node)
                              else if n == up && n != nil then
                                old(n.child).With(if node == old(n.child).left then LEFT else RIGHT, y)
                              else old(n.child)
    {
      var sub := node.child.At(1 - dir);

      node.child := node.child.With(1 - dir, sub.child.At(dir));
      if sub.child.At(dir) != nil {
        sub.child.At(dir).parent := node;
      }
      sub.parent := node.parent;

      if node.parent == nil {
        root := sub;
      } else {
        node.parent.child := node.parent.child.With(Direction(node), sub);
      }

      sub.child := sub.child.With(dir, node);
      node.parent := sub;
    }

    method RotateSubtree(node: RbNode, dir: Dir, ghost path: Path, ghost b: Tree, ghost y: RbNode)
      requires RotationSite(Snapshot(), nil, path, dir, node, b, y) && node in repr && y in repr
      requires path.Step? ==> path.item.node != nil
      modifies this`root, repr
      ensures RotationWrites(old(Snapshot()), Snapshot(), nil, path, dir, node, b, y)
      ensures root == (if path == Top then y else old(root)) && nil.parent == old(nil.parent)
    {
      hide RotationWrites, RotationSite, Snapshot;
      ghost var h := Snapshot();
      SiteFields(path, dir, node, b, y);
      RotateLinks(node, dir, y, Root(b, nil), Parent(path, nil));
      FieldsWritten(h, path, dir, node, b, y);
    }

    lemma SiteFields(path: Path, dir: Dir, node: RbNode, b: Tree, y: RbNode)
      requires RotationSite(Snapshot(), nil, path, dir, node, b, y) && (path.Step? ==> path.item.node != nil)
      ensures node in repr && y in repr && node != y && node.child.At(1 - dir) == y && y.child.At(dir) == Root(b, nil)
      ensures node.parent == Parent(path, nil) && node != nil && y != nil && Snapshot().Keys == repr
      ensures Root(b, nil) != nil ==> Root(b, nil) in repr && Root(b, nil) != node && Root(b, nil) != y
      ensures path.Step? ==>
                var up := path.item.node;
                up in repr && up != nil && up != node && up != y && up != Root(b, nil)
      ensures path == Top ==> Parent(path, nil) == nil
      ensures forall n :: n in repr ==> Snapshot()[n] == Cell(n.parent, n.child, n.key, n.color)
    {
    }

    /** The fields after a rotation, put together. */
    lemma FieldsWritten(h: Store, path: Path, dir: Dir, node: RbNode, b: Tree, y: RbNode)
      requires RotationSite(h, nil, path, dir, node, b, y) && h.Keys == repr && (path.Step? ==> path.item.node != nil)
      requires forall n :: n in repr ==>
                 var c, up, inner := h[n], Parent(path, nil), Root(b, nil);
                 && (n.key, n.color) == (c.key, c.color)
                 && n.parent == (if n == node then y else if n == y then up
                                else if n == inner && n != nil then node else c.parent)
                 && n.child == if n == node then c.child.With(1 - dir, inner)
                               else if n == y then c.child.With(dir, node)
                               else if n == up && n != nil then
                                 c.child.With(if node == c.child.left then LEFT else RIGHT, y)
                               else c.child
      ensures RotationWrites(h, Snapshot(), nil, path, dir, node, b, y)
    {
    }

    /** `RotateSubtree` as a step between trees. */
    method Rotate(node: RbNode, dir: Dir, ghost path: Path, ghost a: Tree, ghost x: Item, ghost b: Tree, ghost y: Item,
                  ghost c: Tree)
      requires Shown() && node == x.node
      requires shape == Plug(path, Unrotated(dir, a, x, b, y, c))
      modifies this`root, this`shape, repr
      ensures Shown() && shape == Plug(path, Rotated(dir, a, x, b, y, c))
      ensures nil.parent == old(nil.parent)
    {
      hide Plug, Rotated, Unrotated, Represents, Nodes, RotationWrites;
      ghost var h := Snapshot();
      RotationStarts(h, nil, root, path, dir, a, x, b, y, c);
      RotateSubtree(node, dir, path, b, y.node);
      RotationKeepsOrder(path, dir, a, x, b, y, c);
      RotationRepresents(h, Snapshot(), nil, old(root), root, path, dir, a, x, b, y, c);
      shape := Plug(path, Rotated(dir, a, x, b, y, c));
    }

    /** The fields of the nodes just below and just above the hole of a path. */
    lemma Around(path: Path, t: Tree)
      requires Shown() && shape == Plug(path, t)
      ensures t.Node? ==>
        var n := t.item.node;
        && n in repr && n != nil && n.parent == Parent(path, nil) && n.key == t.item.key && n.color == t.item.color
        && n.child == Links(Root(t.left, nil), Root(t.right, nil))
        && (n.child.left == nil <==> t.left == Leaf) && (n.child.right == nil <==> t.right == Leaf)
      ensures path.Step? ==>
        var m := path.item.node;
        && m in repr && m != nil && m.parent == Parent(path.up, nil) && m.key == path.item.key
        && m.color == path.item.color
        && m.child.At(path.d) == Root(t, nil) && m.child.At(1 - path.d) == Root(path.other, nil)
        && (Root(t, nil) != Root(path.other, nil) ==> path.d == if Root(t, nil) == m.child.left then LEFT else RIGHT)
      ensures path.Step? && t.Node? ==> Root(t, nil) != Root(path.other, nil)
      ensures root == Root(t, nil) <==> path == Top
      ensures nil.color == Black && nil in repr
    {
      AroundHole(Snapshot(), nil, root, path, t);
    }

    method Paint(n: RbNode, c: Color, ghost path: Path, ghost t: Tree)
      requires Shown() && shape == Plug(path, t) && t.Node? && t.item.node == n
      modifies this`shape, repr
      ensures Shown() && shape == Plug(path, PaintTree(t, c))
      ensures nil.parent == old(nil.parent)
    {
      hide Plug, Represents, Nodes, PathNodes;
      ghost var h := Snapshot();
      Around(path, t);
      PaintRepresents(h, nil, root, path, t, c);
      PlugSeparate(path, t);
      PlugSeparate(path, PaintTree(t, c));
      OwnNodes(path, t);
      n.color := c;
      shape := Plug(path, PaintTree(t, c));
      assert Snapshot() == h[n := h[n].(color := c)];
    }

    /** The red uncle case: blackness moves one level down. */
    method InsertRecolor(node: RbNode, ghost path: Path, ghost t: Tree)
      returns (next: RbNode, ghost path': Path, ghost t': Tree)
      requires Shown() && shape == Plug(path, t) && t.Node? && node == t.item.node
      requires path.Step? && path.up.Step? && path.up.other.Node?
      modifies this`shape, repr
      ensures Shown() && shape == Plug(path', t')
      ensures path' == path.up.up && next == Root(t', nil)
      ensures t' == Make(path.up.d, Make(path.d, t, Painted(path.item, Black), path.other),
                         Painted(path.up.item, Red), PaintTree(path.up.other, Black))
    {
      ghost var Step(d1, Step(d2, up, g, uncleTree), p, sib) := path;
      ghost var p' := Painted(p, Black);
      ghost var uncleTree' := PaintTree(uncleTree, Black);
      ghost var pt := Make(d1, t, p, sib);
      ghost var pt' := Make(d1, t, p', sib);
      ghost var gt := Make(d2, pt', g, uncleTree');
      Around(path, t);
      Around(path.up, pt);
      var uncle := node.parent.parent.child.At(1 - Direction(node.parent));

      Paint(node.parent, Black, path.up, pt);
      assert shape == Plug(Step(1 - d2, up, g, pt'), uncleTree);
      Paint(uncle, Black, Step(1 - d2, up, g, pt'), uncleTree);
      assert shape == Plug(up, gt) == Plug(Step(d2, up, g, uncleTree'), pt');
      Around(Step(d1, Step(d2, up, g, uncleTree'), p', sib), t);
      Around(Step(d2, up, g, uncleTree'), pt');
      Paint(node.parent.parent, Red, up, gt);
      Around(Step(d1, Step(d2, up, Painted(g, Red), uncleTree'), p', sib), t);
      Around(Step(d2, up, Painted(g, Red), uncleTree'), pt');
      next := node.parent.parent;
      path', t' := up, PaintTree(gt, Red);
    }

    /** The first rotation of the black uncle case, which makes `node` an outer grandchild. */
    method InsertStraighten(node: RbNode, pinv: Dir, ghost path: Path, ghost t: Tree)
      returns (next: RbNode, ghost path': Path, ghost t': Tree)
      requires Shown() && shape == Plug(path, t) && t.Node? && node == t.item.node
      requires path.Step? && path.up.Step? && path.d == pinv == 1 - path.up.d
      modifies this`root, this`shape, repr
      ensures Shown() && shape == Plug(path', t') && InOrder(shape) == old(InOrder(shape))
      ensures t' == Make(1 - pinv, path.other, path.item, Sub(t, 1 - pinv)) && next == Root(t', nil)
      ensures path' == Step(1 - pinv, path.up, t.item, Sub(t, pinv))
    {
      ghost var a, x, b, y, c := path.other, path.item, Sub(t, 1 - pinv), t.item, Sub(t, pinv);
      Around(path, t);
      next := node.parent;
      assert Plug(path, t) == Plug(path.up, Unrotated(1 - pinv, a, x, b, y, c));
      RotationKeepsOrder(path.up, 1 - pinv, a, x, b, y, c);
      Rotate(next, 1 - pinv, path.up, a, x, b, y, c);
      path', t' := Step(1 - pinv, path.up, y, c), Make(1 - pinv, a, x, b);
    }

    /** The rest of the black uncle case: the parent takes the place of the grandparent. */
    method InsertLift(node: RbNode, pinv: Dir, ghost path: Path, ghost t: Tree) returns (ghost path': Path)
      requires Shown() && shape == Plug(path, t) && t.Node? && node == t.item.node
      requires path.Step? && path.up.Step? && path.d == path.up.d == 1 - pinv
      modifies this`root, this`shape, repr
      ensures Shown() && shape == Plug(path', t)
      ensures path' == Step(1 - pinv, path.up.up, Painted(path.item, Black),
                            Make(pinv, path.up.other, Painted(path.up.item, Red), path.other))
    {
      ghost var Step(d, Step(_, up, g, uncle), p, sib) := path;
      ghost var p', g' := Painted(p, Black), Painted(g, Red);
      Around(path, t);
      Around(path.up, Make(d, t, p, sib));
      Paint(node.parent, Black, path.up, Make(d, t, p, sib));
      Around(Step(d, path.up, p', sib), t);
      Around(path.up, Make(d, t, p', sib));
      Paint(node.parent.parent, Red, up, Make(d, Make(d, t, p', sib), g, uncle));
      Around(Step(d, Step(d, up, g', uncle), p', sib), t);
      Around(Step(d, up, g', uncle), Make(d, t, p', sib));
      assert shape == Plug(up, Unrotated(pinv, uncle, g', sib, p', t));
      Rotate(node.parent.parent, pinv, up, uncle, g', sib, p', t);
      path' := Step(d, up, p', Make(pinv, uncle, g', sib));
    }

    /** The turn of `insert_fix` with a red uncle. */
    method InsertRedUncle(node0: RbNode, ghost path0: Path, ghost t0: Tree)
      returns (node: RbNode, ghost path: Path, ghost t: Tree)
      requires Shown() && shape == Plug(path0, t0) && t0.Node? && node0 == t0.item.node
      requires RedFault(path0, t0) && path0.Step? && path0.item.color == Red && path0.up.Step?
      requires path0.up.other.Node? && Shade(path0.up.other) == Red
      modifies this`root, this`shape, repr
      ensures Shown() && shape == Plug(path, t) && t.Node? && node == t.item.node
      ensures RedFault(path, t) && InOrder(shape) == old(InOrder(shape)) && Depth(path) < Depth(path0)
    {
      hide Plug, InOrder, RedFault, Fits, RedBlack, Shown, Depth;
      node, path, t := InsertRecolor(node0, path0, t0);
      RecolorMovesFault(path0, t0, t);
    }

    /** The turn of `insert_fix` with a black uncle, `pinv` being its side: one or two rotations. */
    method InsertBlackUncle(node0: RbNode, pinv: Dir, ghost path0: Path, ghost t0: Tree)
      returns (node: RbNode, ghost path: Path, ghost t: Tree)
      requires Shown() && shape == Plug(path0, t0) && t0.Node? && node0 == t0.item.node && node0.parent != null
      requires RedFault(path0, t0) && path0.Step? && path0.item.color == Red && path0.up.Step?
      requires Shade(path0.up.other) == Black && pinv == 1 - path0.up.d && Direction(node0) == path0.d
      modifies this`root, this`shape, repr
      ensures Shown() && shape == Plug(path, t) && t.Node? && node == t.item.node
      ensures RedFault(path, t) && InOrder(shape) == old(InOrder(shape)) && Depth(path) < Depth(path0)
    {
      hide Plug, InOrder, RedFault, Fits, RedBlack, Shown, Depth;
      node, path, t := node0, path0, t0;
      var dir := Direction(node);
      if dir == pinv {
        node, path, t := InsertStraighten(node, pinv, path, t);
        StraightenKeepsFault(path0, t0, path, t);
      }
      ghost var before := path;
      path := InsertLift(node, pinv, path, t);
      LiftEndsFault(before, t, path);
    }

    /** One turn of the loop of `insert_fix`. */
    method InsertFixStep(node0: RbNode, ghost path0: Path, ghost t0: Tree)
      returns (node: RbNode, ghost path: Path, ghost t: Tree)
      requires Shown() && shape == Plug(path0, t0) && t0.Node? && node0 == t0.item.node
      requires RedFault(path0, t0) && !BlackHole(path0) && path0.up.Step?
      modifies this`root, this`shape, repr
      ensures Shown() && shape == Plug(path, t) && t.Node? && node == t.item.node
      ensures node.parent == Parent(path, nil) && node.parent.color == if BlackHole(path) then Black else Red
      ensures RedFault(path, t) && InOrder(shape) == old(InOrder(shape))
      ensures Depth(path) < Depth(path0)
    {
      hide Plug, InOrder, RedFault, Fits, RedBlack, Shown, Depth;
      ghost var Step(d1, Step(d2, up, g, uncleTree), p, sib) := path0;
      Around(path0, t0);
      StepViews(path0, t0);
      Around(path0.up, Make(d1, t0, p, sib));
      StepViews(path0.up, Make(d1, t0, p, sib));
      Around(Step(1 - d2, up, g, Make(d1, t0, p, sib)), uncleTree);

      var pinv := 1 - Direction(node0.parent);
      var uncle := node0.parent.parent.child.At(pinv);
      if uncle.color == Red {
        node, path, t := InsertRedUncle(node0, path0, t0);
      } else {
        node, path, t := InsertBlackUncle(node0, pinv, path0, t0);
      }
      Around(path, t);
    }

    /** Repairs the tree after a red node, the root of `t0`, was put in. */
    method InsertFix(node0: RbNode, ghost path0: Path, ghost t0: Tree)
      requires Shown() && shape == Plug(path0, t0) && t0.Node? && node0 == t0.item.node
      requires RedFault(path0, t0)
      modifies this`root, this`shape, repr
      ensures Shown() && InOrder(shape) == old(InOrder(shape))
      ensures RedBlack(shape) && Shade(shape) == Black
    {
      var node := node0;
      ghost var path, t := path0, t0;
      Around(path, t);
      while node.parent.color == Red
        invariant Shown() && shape == Plug(path, t) && t.Node? && node == t.item.node
        invariant node.parent == Parent(path, nil) && node.parent.color == if BlackHole(path) then Black else Red
        invariant RedFault(path, t) && InOrder(shape) == old(InOrder(shape))
        decreases Depth(path)
      {
        FaultHasGrandparent(path, t);
        node, path, t := InsertFixStep(node, path, t);
      }

      assert BlackHole(path);
      BlackRootEndsFault(path, t);
      Around(Top, shape);
      ghost var w := shape;
      Paint(root, Black, Top, w);
    }

    /** The link from what is in the hole up to its parent, which for the sentinel is
        written by `transplant`. */
    ghost predicate KnowsParent(node: RbNode, path: Path)
      reads node
    {
      path.Step? ==> node.parent == path.item.node
    }

    /** The red sibling case. */
    method RemoveRotateUp(node: RbNode, inv: Dir, ghost path: Path, ghost t: Tree)
      returns (sibling: RbNode, ghost path': Path)
      requires Shown() && shape == Plug(path, t) && node == Root(t, nil) && KnowsParent(node, path)
      requires path.Step? && path.d == 1 - inv && path.other.Node?
      modifies this`root, this`shape, repr
      ensures Shown() && shape == Plug(path', t) && KnowsParent(node, path')
      ensures var o, d := path.other, path.d;
        path' == Step(d, Step(d, path.up, Painted(o.item, Black), Sub(o, 1 - d)), Painted(path.item, Red), Sub(o, d))
      ensures sibling == Root(path'.other, nil)
    {
      ghost var Step(d, up, p, o) := path;
      ghost var o', p' := PaintTree(o, Black), Painted(p, Red);
      Around(path, t);
      Paint(node.parent.child.At(inv), Black, Step(inv, up, p, t), o);
      assert shape == Plug(up, Make(d, t, p, o'));
      Around(Step(d, up, p, o'), t);
      Paint(node.parent, Red, up, Make(d, t, p, o'));
      assert shape == Plug(up, Unrotated(d, t, p', Sub(o, d), o'.item, Sub(o, 1 - d)));
      Around(Step(d, up, p', o'), t);
      Rotate(node.parent, 1 - inv, up, t, p', Sub(o, d), o'.item, Sub(o, 1 - d));
      path' := Step(d, Step(d, up, o'.item, Sub(o, 1 - d)), p', Sub(o, d));
      Around(path', t);
      sibling := node.parent.child.At(inv);
    }

    /** The black sibling with only the near child red. */
    method RemoveStraighten(node: RbNode, sibling0: RbNode, inv: Dir, ghost path: Path, ghost t: Tree)
      returns (sibling: RbNode, ghost path': Path)
      requires Shown() && shape == Plug(path, t) && node == Root(t, nil) && KnowsParent(node, path)
      requires path.Step? && path.d == 1 - inv && path.other.Node? && sibling0 == path.other.item.node
      requires Sub(path.other, path.d).Node?
      modifies this`root, this`shape, repr
      ensures Shown() && shape == Plug(path', t) && KnowsParent(node, path')
      ensures var o, d := path.other, path.d; var near := Sub(o, d);
        path' == path.(other := Make(1 - d, Make(1 - d, Sub(o, 1 - d), Painted(o.item, Red), Sub(near, 1 - d)),
                                     Painted(near.item, Black), Sub(near, d)))
      ensures sibling == Root(path'.other, nil)
    {
      ghost var Step(d, up, p, o) := path;
      ghost var near, far := Sub(o, d), Sub(o, 1 - d);
      ghost var near', w := PaintTree(near, Black), Painted(o.item, Red);
      ghost var side := Step(inv, up, p, t);
      assert shape == Plug(side, o);
      Around(side, o);
      Around(path, t);
      assert shape == Plug(Step(d, side, o.item, far), near);
      Paint(sibling0.child.At(1 - inv), Black, Step(d, side, o.item, far), near);
      Paint(sibling0, Red, side, Make(d, near', o.item, far));
      assert shape == Plug(side, Unrotated(inv, far, w, Sub(near, inv), near'.item, Sub(near, d)));
      Rotate(sibling0, inv, side, far, w, Sub(near, inv), near'.item, Sub(near, d));
      path' := path.(other := Rotated(inv, far, w, Sub(near, inv), near'.item, Sub(near, d)));
      assert shape == Plug(path', t);
      Around(path', t);
      sibling := node.parent.child.At(inv);
    }

    /** The black sibling with a red far child. */
    method RemoveLift(node: RbNode, sibling: RbNode, inv: Dir, ghost path: Path, ghost t: Tree)
      requires Shown() && shape == Plug(path, t) && node == Root(t, nil) && KnowsParent(node, path)
      requires path.Step? && path.d == 1 - inv && path.other.Node? && sibling == path.other.item.node
      requires Sub(path.other, 1 - path.d).Node?
      modifies this`root, this`shape, repr
      ensures Shown()
      ensures var Step(d, up, p, o) := path;
        shape == Plug(up, Make(d, Make(d, t, Painted(p, Black), Sub(o, d)), Painted(o.item, p.color),
          PaintTree(Sub(o, 1 - d), Black)))
    {
      ghost var Step(d, up, p, o) := path;
      ghost var near, far := Sub(o, d), Sub(o, 1 - d);
      ghost var p', far' := Painted(p, Black), PaintTree(far, Black);
      ghost var w := Painted(o.item, p.color);
      Around(path, t);
      Paint(sibling, node.parent.color, Step(inv, up, p, t), o);
      assert shape == Plug(up, Make(d, t, p, Make(d, near, w, far)));
      Around(Step(d, up, p, Make(d, near, w, far)), t);
      Paint(node.parent, Black, up, Make(d, t, p, Make(d, near, w, far)));
      ghost var side := Step(inv, up, p', t);
      assert shape == Plug(Step(inv, side, w, near), far);
      Around(Step(inv, side, w, near), far);
      Paint(sibling.child.At(inv), Black, Step(inv, side, w, near), far);
      assert shape == Plug(up, Unrotated(d, t, p', near, w, far'));
      Around(Step(d, up, p', Make(d, near, w, far')), t);
      Rotate(node.parent, 1 - inv, up, t, p', near, w, far');
    }

    /** The fields of the sibling of the hole and the colours of its children. */
    lemma SiblingChildren(path: Path, t: Tree)
      requires Shown() && shape == Plug(path, t) && path.Step? && path.other.Node?
      ensures var s := path.other.item.node;
        && s.color == path.other.item.color
        && s.child == Links(Root(path.other.left, nil), Root(path.other.right, nil))
        && s.child.left.color == Shade(path.other.left) && s.child.right.color == Shade(path.other.right)
    {
      var Step(d, up, p, o) := path;
      var side := Step(1 - d, up, p, t);
      Around(side, o);
      Around(Step(LEFT, side, o.item, o.right), o.left);
      Around(Step(RIGHT, side, o.item, o.left), o.right);
    }

    /** The black sibling with black children. */
    method RemovePaintSibling(node: RbNode, sibling: RbNode, ghost path: Path, ghost t: Tree)
      returns (next: RbNode, ghost t': Tree)
      requires Shown() && shape == Plug(path, t) && node == Root(t, nil) && KnowsParent(node, path)
      requires path.Step? && path.other.Node? && sibling == path.other.item.node
      modifies this`shape, repr
      ensures t' == Make(path.d, t, path.item, PaintTree(path.other, Red))
      ensures Shown() && shape == Plug(path.up, t') && next == Root(t', nil) && KnowsParent(next, path.up)
    {
      ghost var Step(d, up, p, o) := path;
      Paint(sibling, Red, Step(1 - d, up, p, t), o);
      t' := Make(d, t, p, PaintTree(o, Red));
      Around(Step(d, up, p, PaintTree(o, Red)), t);
      next := node.parent;
      Around(up, t');
    }

    /** The black sibling with a red child: at most two rotations end the shortage. */
    method RemoveEndShort(node: RbNode, sibling0: RbNode, inv: Dir, ghost path0: Path, ghost t: Tree)
      requires Shown() && shape == Plug(path0, t) && node == Root(t, nil) && KnowsParent(node, path0)
      requires Short(path0, t) && path0.Step? && Shade(t) == Black
      requires path0.d == 1 - inv && path0.other.Node? && path0.other.item.color == Black
      requires sibling0 == path0.other.item.node
      requires !(Shade(path0.other.left) == Shade(path0.other.right) == Black)
      modifies this`root, this`shape, repr
      ensures Shown() && RedBlack(shape) && InOrder(shape) == old(InOrder(shape))
    {
      hide Plug, InOrder, Short, Fits, RedBlack;
      var sibling := sibling0;
      ghost var path := path0;
      SiblingChildren(path, t);
      if sibling.child.At(inv).color == Black {
        sibling, path := RemoveStraighten(node, sibling, inv, path, t);
        StraightenKeepsShort(path0, t, path.other);
      }
      LiftEndsShort(path, t, Make(path.d, Make(path.d, t, Painted(path.item, Black), Sub(path.other, path.d)),
        Painted(path.other.item, path.item.color), PaintTree(Sub(path.other, 1 - path.d), Black)));
      RemoveLift(node, sibling, inv, path, t);
    }

    /** One turn of the loop of `remove_fix`. The sibling is a real node throughout. */
    method RemoveFixStep(node0: RbNode, ghost path0: Path, ghost t0: Tree)
      returns (node: RbNode, ghost path: Path, ghost t: Tree)
      requires Shown() && shape == Plug(path0, t0) && node0 == Root(t0, nil) && KnowsParent(node0, path0)
      requires Short(path0, t0) && path0.Step? && Shade(t0) == Black
      modifies this`root, this`shape, repr
      ensures Shown() && shape == Plug(path, t) && node == Root(t, nil) && KnowsParent(node, path)
      ensures Short(path, t) && InOrder(shape) == old(InOrder(shape))
      ensures path == Top || (if Shade(t) == Red then 0 else Depth(path)) < Depth(path0)
    {
      hide Plug, InOrder, Short, Fits, RedBlack;
      ShortHasSibling(path0, t0);
      Around(path0, t0);
      node, path, t := node0, path0, t0;
      StepViews(path, t);
      Around(Step(1 - path.d, path.up, path.item, t), path.other);

      var inv := 1 - Direction(node);
      var sibling := node.parent.child.At(inv);
      assert sibling != nil;
      if sibling.color == Red {
        sibling, path := RemoveRotateUp(node, inv, path, t);
        RedSiblingKeepsShort(path0, t, path);
      }
      SiblingChildren(path, t);

      if sibling.child.left.color == Black && sibling.child.right.color == Black {
        BlackSiblingMovesShort(path, t, Make(path.d, t, path.item, PaintTree(path.other, Red)));
        node, t := RemovePaintSibling(node, sibling, path, t);
        path := path.up;
      } else {
        RemoveEndShort(node, sibling, inv, path, t);
        WholeIsShort(shape);
        Around(Top, shape);
        node := root;
        path, t := Top, shape;
      }
    }

    /** Repairs the tree after a black node, somewhere below the hole, was taken out. */
    method RemoveFix(node0: RbNode, ghost path0: Path, ghost t0: Tree)
      requires Shown() && shape == Plug(path0, t0) && node0 == Root(t0, nil) && KnowsParent(node0, path0)
      requires Short(path0, t0)
      modifies this`root, this`shape, repr
      ensures Shown() && InOrder(shape) == old(InOrder(shape))
      ensures RedBlack(shape) && Shade(shape) == Black
    {
      hide Plug, InOrder, Short, Fits, RedBlack;
      var node := node0;
      ghost var path, t := path0, t0;
      Around(path, t);
      while node != root && node.color == Black
        invariant Shown() && shape == Plug(path, t) && node == Root(t, nil) && KnowsParent(node, path)
        invariant node != root <==> path.Step?
        invariant node.color == Shade(t)
        invariant Short(path, t) && InOrder(shape) == old(InOrder(shape))
        decreases path.Step?, if Shade(t) == Red then 0 else Depth(path)
      {
        node, path, t := RemoveFixStep(node, path, t);
        Around(path, t);
      }

      PaintEndsShort(path, t);
      if node == nil {
        ghost var h := Snapshot();
        node.color := Black;
        assert Snapshot() == h;
      } else {
        Paint(node, Black, path, t);
      }
    }

    /** `b` takes the place of `a`; the links of `a` stay as they are. */
    method Transplant(a: RbNode, b: RbNode, ghost path: Path)
      requires Replaceable(Snapshot(), nil, path, a) && b in repr
      modifies this`root, repr
      ensures Snapshot() == Transplanted(old(Snapshot()), nil, path, b)
      ensures root == (if path == Top then b else old(root)) && KnowsParent(b, path)
      ensures a.key == old(a.key)
    {
      if a.parent == nil {
        root := b;
      } else {
        a.parent.child := a.parent.child.With(Direction(a), b);
      }
      b.parent := a.parent;
    }

    method Minimum(node: RbNode, ghost path: Path, ghost t: Tree)
      returns (m: RbNode, ghost inner: Path, ghost s: Tree, ghost steps: nat)
      requires Shown() && shape == Plug(path, t) && t.Node? && node == t.item.node
      ensures t == Plug(inner, s) && s.Node? && s.left == Leaf && m == s.item.node
      ensures Before(inner) == [] && (inner == Top <==> m == node)
      ensures InOrder(t) != [] && InOrder(t)[0].node == m
      ensures steps == Depth(inner) && steps + Height(s) <= Height(t)
    {
      m := node;
      inner, s, steps := Top, t, 0;
      Around(path, t);
      while m.child.left != nil
        invariant t == Plug(inner, s) && s.Node? && m == s.item.node
        invariant m.child.left == Root(s.left, nil) && m != nil
        invariant Before(inner) == []
        invariant shape == Plug(Compose(inner, path), s)
        invariant steps == Depth(inner) && steps + Height(s) <= Height(t)
        decreases s
      {
        inner, s := Step(LEFT, inner, s.item, s.right), s.left;
        m := m.child.left;
        steps := steps + 1;
        Around(Compose(inner, path), s);
      }
      PlugSeparate(path, t);
      PlugSeparate(inner, s);
      PlugInOrder(inner, s);
      if inner.Step? { RootInPath(inner, s, nil); }
    }

    /** The links spell out `w`, which no longer has `node`. */
    ghost method Forget(node: RbNode, w: Tree)
      requires Represents(Snapshot(), nil, root, w) && repr - {node} == Nodes(w) + {nil}
      modifies this`shape, this`repr
      ensures Shown() && shape == w && repr == old(repr) - {node}
    {
      ghost var h := Snapshot();
      shape := w;
      repr := repr - {node};
      ForgetRepresents(h, Snapshot(), nil, root, w);
    }

    /** Takes out a node that has a sentinel as the child opposite to `dir`. */
    method SpliceOutChild(node: RbNode, dir: Dir, ghost path: Path, ghost t: Tree) returns (x: RbNode)
      requires Shown() && shape == Plug(path, t) && t.Node? && node == t.item.node && Sub(t, 1 - dir) == Leaf
      modifies this`root, this`shape, this`repr, repr
      ensures Shown() && shape == Plug(path, Sub(t, dir)) && repr == old(repr) - {node}
      ensures x == Root(Sub(t, dir), nil) && KnowsParent(x, path)
      ensures node.key == old(node.key)
    {
      hide Plug, Represents, Nodes, Transplanted;
      ghost var s := Sub(t, dir);
      SpliceOutRepresents(Snapshot(), nil, root, path, t, dir);
      x := node.child.At(dir);
      Transplant(node, x, path);
      Forget(node, Plug(path, s));
    }

    /** `y` takes over the right subtree of `node`. */
    method AdoptRight(node: RbNode, y: RbNode)
      requires {node, y, node.child.right} <= repr && y != node.child.right && y != node
      modifies y, node.child.right
      ensures var h, r := old(Snapshot()), old(node.child.right);
        Snapshot() == h[y := h[y].WithChild(RIGHT, r)][r := h[r].(parent := y)]
      ensures node.key == old(node.key)
    {
      y.child := y.child.With(RIGHT, node.child.right);
      y.child.right.parent := y;
    }

    /** The successor `y` of `node`, which is not its child, leaves its place to its right child. */
    method PrepareDeep(node: RbNode, y: RbNode, ghost path: Path, ghost l: Tree, ghost x: Item,
                       ghost inner: Path, ghost item: Item, ghost s: Tree)
      requires Shown() && shape == Plug(path, Node(l, x, Plug(inner, Node(Leaf, item, s))))
      requires node == x.node && y == item.node && inner.Step?
      modifies this`root, repr
      ensures Prepared(Snapshot(), nil, path, node, l, y, Plug(inner, s))
      ensures root == old(root) == Root(Plug(path, Node(l, x, Plug(inner, s))), nil)
      ensures s == Leaf ==> nil.parent == inner.item.node
      ensures y.key == item.key && node.color == x.color
      ensures node.key == old(node.key)
    {
      hide Plug, Compose, Nodes, Represents, Prepared;
      ghost var outer, r := Step(RIGHT, path, x, l), Plug(inner, s);
      ghost var c := Compose(inner, outer);
      ghost var w := Node(l, x, r);
      ComposeRight(inner, path, l, x, Node(Leaf, item, s));
      ComposeRight(inner, path, l, x, s);
      Around(c, Node(Leaf, item, s));
      Around(path, Node(l, x, Plug(inner, Node(Leaf, item, s))));
      SuccessorLeaves(Snapshot(), nil, root, c, item, s);
      PlugIsNode(inner, s);
      RootPlug(c, Node(Leaf, item, s), s, nil);
      StepViews(outer, r);
      RepresentsRoot(Snapshot(), nil, root, shape);

      Transplant(y, y.child.right, c);
      ghost var h := Snapshot();
      AroundHole(h, nil, root, outer, r);
      AdoptRight(node, y);
      PreparedDeep(h, Snapshot(), nil, root, path, l, x, y, r);
    }

    /** The successor `y` takes the place, the left subtree and the colour of `node`. */
    method TakeOver(node: RbNode, y: RbNode, ghost path: Path, ghost l: Tree, ghost x: Item, ghost item: Item,
                    ghost r: Tree)
      requires Prepared(Snapshot(), nil, path, node, l, y, r) && l.Node?
      requires node == x.node && y == item.node && y.key == item.key && node.color == x.color
      requires root == Root(Plug(path, Node(l, x, r)), nil)
      modifies this`root, repr
      ensures Represents(Snapshot(), nil, root, Plug(path, Node(l, Painted(item, x.color), r)))
      ensures nil.parent == old(nil.parent)
      ensures node.key == old(node.key)
    {
      hide Plug, Represents, Nodes, PathNodes, Linked, PathLinked, Separate, PathSeparate;
      ghost var h := Snapshot();
      PreparedReplaceable(h, nil, path, node, l, y, r);
      RootIgnoresItem(path, l, x, Item(node, 0, Red), r, nil);
      assert node in repr && y in repr;

      Transplant(node, y, path);
      y.child := y.child.With(LEFT, node.child.left);
      y.child.left.parent := y;
      y.color := node.color;

      TakeOverRepresents(h, Snapshot(), nil, old(root), root, path, node, l, Painted(item, x.color), r);
    }

    /** The successor `y` is the right child of `node`: it keeps its right child, whose parent
        link is written because it may be the sentinel. */
    method PrepareShallow(node: RbNode, y: RbNode, ghost path: Path, ghost l: Tree, ghost x: Item, ghost item: Item,
                          ghost s: Tree)
      requires Shown() && shape == Plug(path, Node(l, x, Node(Leaf, item, s)))
      requires node == x.node && y == item.node
      modifies repr
      ensures Prepared(Snapshot(), nil, path, node, l, y, s)
      ensures root == Root(Plug(path, Node(l, x, s)), nil)
      ensures nil.parent == if s == Leaf then y else old(nil.parent)
      ensures y.key == item.key && node.color == x.color
      ensures node.key == old(node.key)
    {
      hide Plug, Nodes, Linked, PathLinked, Represents;
      ghost var h, w := Snapshot(), Node(l, x, Node(Leaf, item, s));
      PreparedShallow(h, nil, root, path, l, x, item, s);
      Around(path, w);
      StepViews(Step(RIGHT, path, x, l), Node(Leaf, item, s));
      StepViews(Step(RIGHT, Step(RIGHT, path, x, l), item, Leaf), s);
      RepresentsRoot(h, nil, root, shape);
      Around(Step(RIGHT, path, x, l), Node(Leaf, item, s));
      Around(Step(RIGHT, Step(RIGHT, path, x, l), item, Leaf), s);
      RootPlug(path, w, Node(l, x, s), nil);

      y.child.right.parent := y;
      if s == Leaf {
        assert Snapshot() == h[nil := h[nil].(parent := y)];
        PreparedFrame(h, Snapshot(), nil, path, node, l, y, s);
      } else {
        assert Snapshot() == h;
      }
    }

    method PrepareSuccessor(node: RbNode, y: RbNode, ghost path: Path, ghost l: Tree, ghost x: Item,
                            ghost inner: Path, ghost item: Item, ghost s: Tree)
      requires Shown() && shape == Plug(path, Node(l, x, Plug(inner, Node(Leaf, item, s))))
      requires node == x.node && y == item.node
      requires y != node.child.right <==> inner.Step?
      modifies this`root, repr
      ensures Prepared(Snapshot(), nil, path, node, l, y, Plug(inner, s))
      ensures root == Root(Plug(path, Node(l, x, Plug(inner, s))), nil)
      ensures s == Leaf ==> nil.parent == if inner == Top then y else inner.item.node
      ensures y.key == item.key && node.color == x.color
      ensures node.key == old(node.key)
    {
      if y != node.child.right {
        PrepareDeep(node, y, path, l, x, inner, item, s);
      } else {
        assert Plug(Top, s) == s;
        PrepareShallow(node, y, path, l, x, item, s);
      }
    }

    /** The successor `y` takes over from `node`, which leaves the tree. */
    method Promote(node: RbNode, y: RbNode, ghost path: Path, ghost l: Tree, ghost x: Item,
                   ghost inner: Path, ghost item: Item, ghost s: Tree)
      requires Shown() && shape == Plug(path, Node(l, x, Plug(inner, Node(Leaf, item, s)))) && l.Node?
      requires node == x.node && y == item.node
      requires y != node.child.right <==> inner.Step?
      requires Nodes(Plug(path, Node(l, Painted(item, x.color), Plug(inner, s)))) == Nodes(shape) - {node}
      modifies this`root, this`shape, this`repr, repr
      ensures Shown() && shape == Plug(path, Node(l, Painted(item, x.color), Plug(inner, s)))
      ensures repr == old(repr) - {node}
      ensures s == Leaf ==> nil.parent == if inner == Top then y else inner.item.node
      ensures node.key == old(node.key)
    {
      hide Plug, Represents, Nodes, Prepared, Snapshot;
      Around(path, Node(l, x, Plug(inner, Node(Leaf, item, s))));
      PrepareSuccessor(node, y, path, l, x, inner, item, s);
      TakeOver(node, y, path, l, x, item, Plug(inner, s));
      Forget(node, Plug(path, Node(l, Painted(item, x.color), Plug(inner, s))));
    }

    /** The walk to the successor: one step right and then to the minimum. */
    method Successor(node: RbNode, ghost path: Path, ghost t: Tree)
      returns (y: RbNode, ghost inner: Path, ghost st: Tree, ghost steps: nat)
      requires Shown() && shape == Plug(path, t) && t.Node? && node == t.item.node && t.right.Node?
      ensures t.right == Plug(inner, st) && st.Node? && st == Node(Leaf, st.item, st.right) && Before(inner) == []
      ensures y == st.item.node && y.color == st.item.color && y.child.right == Root(st.right, nil)
      ensures y != node.child.right <==> inner.Step?
      ensures steps == 1 + Depth(inner) && steps < Height(t)
    {
      ghost var right := Step(RIGHT, path, t.item, t.left);
      Around(path, t);
      Around(right, t.right);
      y, inner, st, steps := Minimum(node.child.right, right, t.right);
      steps := steps + 1;
      ComposeRight(inner, path, t.left, t.item, st);
      Around(Compose(inner, right), st);
    }

    /** Takes out a node with two children: its successor takes over. */
    method SpliceOutSuccessor(node: RbNode, ghost path: Path, ghost t: Tree)
      returns (x: RbNode, gone: Color, ghost path': Path, ghost s: Tree, ghost steps: nat)
      requires Shown() && shape == Plug(path, t) && t.Node? && node == t.item.node
      requires t.left.Node? && t.right.Node? && RedBlack(shape) && Shade(shape) == Black
      modifies this`root, this`shape, this`repr, repr
      ensures Shown() && shape == Plug(path', s) && repr == old(repr) - {node}
      ensures x == Root(s, nil) && KnowsParent(x, path')
      ensures SpliceBalance(path', s, gone)
      ensures Drops(old(InOrder(shape)), InOrder(shape), Entry(t.item))
      ensures node.key == old(node.key) && steps < Height(t)
    {
      hide Plug, Compose, Represents, Nodes, InOrder, Drops, SpliceBalance, Prepared, RedBlack, Before, Snapshot,
        Height, Depth;
      ghost var l, item := t.left, t.item;
      var y;
      ghost var inner, st;
      y, inner, st, steps := Successor(node, path, t);
      s := st.right;
      ghost var yi := Painted(st.item, item.color);
      RepresentsRoot(Snapshot(), nil, root, shape);
      SuccessorPlan(path, l, item, inner, st.item, s);
      path' := Compose(inner, Step(RIGHT, path, yi, l));

      gone := y.color;
      x := y.child.right;
      Promote(node, y, path, l, item, inner, st.item, s);
      Around(path', s);
    }

    /** Everything the tree keeps between calls. */
    ghost predicate Valid()
      reads this, repr
    {
      && Shown() && Sorted(InOrder(shape)) && RedBlack(shape) && Shade(shape) == Black
      && count == Wrap32(|InOrder(shape)|)
    }

    /** The tree as a finite map from key to node object. */
    ghost function Map(): map<u32, RbNode>
      requires Valid()
      reads this, repr
    {
      Bindings(InOrder(shape))
    }

    /** The nodes that the map names are the tree's own, carry their keys, and differ. */
    lemma MapNodes(key: u32)
      requires Valid() && key in Map()
      ensures Map()[key] in repr && Map()[key] != nil && Map()[key].key == key
    {
      assert Binding(key, Map()[key]) in InOrder(shape);
      ListedNodes(Snapshot(), nil, shape, nil);
    }

    /** `count` is the size of the map, as long as 32 bits can hold it. */
    lemma CountIsSize()
      requires Valid()
      ensures count == Wrap32(|Map()|) && |Map()| <= TWO_TO_THE_32
      ensures |Map()| < TWO_TO_THE_32 ==> count == |Map()|
    {
      hide Shown, Sorted, Bindings, InOrder, RedBlack;
      BindingsSize(InOrder(shape));
    }

    /** Walks down to the node with `key`; `path` and `t` say where it is. */
    method Find(key: u32) returns (r: RbNode?, ghost path: Path, ghost t: Tree, ghost steps: nat)
      requires Valid()
      ensures r == if key in Map() then Map()[key] else null
      ensures shape == Plug(path, t) && (r != null ==> t.Node? && r == t.item.node && t.item.key == key)
      ensures steps + Height(t) <= Height(shape) && Pow2(steps) <= (|Map()| + 1) * (|Map()| + 1)
    {
      hide Plug, Represents, Bindings, Sorted, InOrder, RedBlack, Brackets;
      var node := root;
      steps := 0;
      path, t := Top, shape;
      TopBrackets(shape, key);
      Around(path, t);
      while node != nil
        invariant shape == Plug(path, t) && node == Root(t, nil) && Brackets(path, key)
        invariant node == nil ==> t == Leaf
        invariant steps + Height(t) <= Height(shape)
        decreases t
      {
        Around(path, t);
        if node.key == key {
          Found(path, t);
          FindCost(shape, steps);
          return node, path, t, steps;
        }
        var dir := if key > node.key then RIGHT else LEFT;
        node := node.child.At(dir);
        Descend(path, t, key, dir);
        path, t := Step(dir, path, t.item, Sub(t, 1 - dir)), Sub(t, dir);
        steps := steps + 1;
        Around(path, t);
      }
      NotFound(path, key);
      FindCost(shape, steps);
      r := null;
    }

    /** The writes that link a new red leaf below `parent`. */
    method LinkLeaf(node: RbNode, parent: RbNode, dir: Dir, key: u32)
      requires node !in repr && parent in repr
      modifies this`root, repr, node
      ensures (node.parent, node.key, node.child, node.color) == (parent, key, Links(nil, nil), Red)
      ensures root == if parent == nil then node else old(root)
      ensures forall n :: n in repr ==>
                (n.parent, n.key, n.color) == old((n.parent, n.key, n.color))
                && n.child == if n == parent && parent != nil then old(n.child).With(dir, node) else old(n.child)
    {
      node.parent := parent;
      node.key := key;
      node.child := Links(nil, nil);
      node.color := Red;

      if parent == nil {
        root := node;
      } else {
        parent.child := parent.child.With(dir, node);
      }
    }

    /** Makes `node` a red leaf below `parent`, at the empty hole where the search ended. */
    method Plant(node: RbNode, parent: RbNode, dir: Dir, key: u32, ghost path: Path)
      requires Shown() && node !in repr && shape == Plug(path, Leaf)
      requires parent == Parent(path, nil) && (path.Step? ==> dir == path.d)
      modifies this`root, this`shape, this`repr, repr, node
      ensures Shown() && shape == Plug(path, Node(Leaf, Item(node, key, Red), Leaf))
      ensures repr == old(repr) + {node}
    {
      hide Plug, Represents, Nodes, PathNodes, Separate, PathSeparate;
      ghost var h, item := Snapshot(), Item(node, key, Red);
      Around(path, Leaf);
      LinkLeaf(node, parent, dir, key);
      repr := repr + {node};
      shape := Plug(path, Node(Leaf, item, Leaf));
      PlantRepresents(h, Snapshot(), nil, old(root), root, path, item);
      LeafAdded(path, item);
    }

    method Insert(node: RbNode, key: u32) returns (inserted: bool, ghost steps: nat)
      requires Valid() && node !in repr
      modifies this, repr, node
      ensures Valid() && inserted == (key !in old(Map()))
      ensures inserted ==> Map() == old(Map())[key := node] && repr == old(repr) + {node}
      ensures !inserted ==> unchanged(this) && unchanged(old(repr)) && unchanged(node)
      ensures Pow2(steps) <= (|old(Map())| + 1) * (|old(Map())| + 1)
    {
      hide Add32, Wrap32;
      hide Plug, Shown, Bindings, Sorted, InOrder, RedBlack, Brackets;
      var loc := root;
      var parent := nil;
      var dir: Dir := LEFT;
      steps := 0;
      ghost var path, t := Top, shape;
      TopBrackets(shape, key);
      Around(path, t);

      while loc != nil
        invariant shape == Plug(path, t) && loc == Root(t, nil) && Brackets(path, key)
        invariant parent == Parent(path, nil) && (path.Step? ==> dir == path.d)
        invariant loc == nil ==> t == Leaf
        invariant steps + Height(t) <= Height(shape)
        decreases t
        modifies {}
      {
        Around(path, t);
        if loc.key == key {
          Found(path, t);
          FindCost(shape, steps);
          return false, steps;
        }
        dir := if key > loc.key then RIGHT else LEFT;
        parent := loc;
        loc := loc.child.At(dir);
        Descend(path, t, key, dir);
        path, t := Step(dir, path, t.item, Sub(t, 1 - dir)), Sub(t, dir);
        steps := steps + 1;
        Around(path, t);
      }

      NotFound(path, key);
      FindCost(shape, steps);
      InsertBinding(path, Item(node, key, Red));
      PlantFault(path, Item(node, key, Red));
      CountUp(|InOrder(shape)|);
      Plant(node, parent, dir, key, path);
      count := Add32(count, 1);
      InsertFix(node, path, Node(Leaf, Item(node, key, Red), Leaf));
      inserted := true;
    }

    method Remove(key: u32) returns (r: RbNode?, ghost steps: nat)
      requires Valid()
      modifies this, repr
      ensures Valid() && r == if key in old(Map()) then old(Map())[key] else null
      ensures r != null ==> Map() == old(Map()) - {key} && repr == old(repr) - {r} && r.key == key
      ensures r == null ==> unchanged(this) && unchanged(old(repr))
      ensures Pow2(steps) <= (|old(Map())| + 1) * (|old(Map())| + 1)
    {
      hide Plug, Shown, InOrder, Bindings, Sorted, RedBlack, Drops, Add32, Wrap32, Snapshot, Height, Pow2;
      ghost var path, t;
      r, path, t, steps := Find(key);
      if r != null {
        ghost var before, whole := InOrder(shape), shape;
        Around(path, t);
        ghost var more := TakeOut(r, path, t);
        steps := steps + more;
        FindCost(whole, steps);
        DropBinding(before, InOrder(shape), Entry(t.item));
        CountDown(|before|);
        count := Add32(count, -1);
      }
    }

    /** Splices a node out and repairs the balance. */
    method TakeOut(node: RbNode, ghost path: Path, ghost t: Tree) returns (ghost steps: nat)
      requires Shown() && shape == Plug(path, t) && t.Node? && node == t.item.node
      requires Sorted(InOrder(shape)) && RedBlack(shape) && Shade(shape) == Black
      modifies this`root, this`shape, this`repr, repr
      ensures Shown() && RedBlack(shape) && Shade(shape) == Black && repr == old(repr) - {node}
      ensures Drops(old(InOrder(shape)), InOrder(shape), Entry(t.item))
      ensures node.key == old(node.key) && steps <= Height(t)
    {
      hide Plug, Represents, InOrder, Drops, SpliceBalance, Height;
      Around(path, t);
      steps := 0;
      var x, gone;
      ghost var path', s;
      if node.child.left == nil || node.child.right == nil {
        var dir := if node.child.left == nil then RIGHT else LEFT;
        gone := node.color;
        SpliceChild(path, t, dir);
        x := SpliceOutChild(node, dir, path, t);
        path', s := path, Sub(t, dir);
      } else {
        x, gone, path', s, steps := SpliceOutSuccessor(node, path, t);
      }
      BalanceMeans(path', s, gone);
      if gone == Black {
        RemoveFix(x, path', s);
      }
    }
  }

  lemma LeafAdded(path: Path, item: Item)
    ensures Nodes(Plug(path, Node(Leaf, item, Leaf))) == Nodes(Plug(path, Leaf)) + {item.node}
  {
    hide Plug, Separate, PathSeparate, PathNodes;
    PlugSeparate(path, Leaf);
    PlugSeparate(path, Node(Leaf, item, Leaf));
  }

  lemma FindCost(t: Tree, steps: nat)
    requires RedBlack(t) && Shade(t) == Black && Sorted(InOrder(t)) && steps <= Height(t)
    ensures Pow2(steps) <= (|Bindings(InOrder(t))| + 1) * (|Bindings(InOrder(t))| + 1)
  {
    hide Pow2, Bindings, InOrder, Height, Size;
    BindingsSize(InOrder(t));
    SizeInOrder(t);
    Pow2Monotone(steps, Height(t));
    HeightBound(t);
  }
}
