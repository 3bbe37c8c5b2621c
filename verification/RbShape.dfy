/** Red-black trees as values: the shape that the linked nodes of a tree spell out,
    paths into a shape, and the balance and order that the kernel's tree keeps. */
module RbShape {
  import opened Words

  datatype Color = Red | Black

  /** Index into `child`: 0 is left, 1 is right. */
  type Dir = d: int | 0 <= d <= 1
  const LEFT: Dir := 0
  const RIGHT: Dir := 1

  /** The two child links of a node, named `left` and `right` or indexed by direction. */
  datatype Links<T> = Links(left: T, right: T) {
    function At(d: Dir): T {
      if d == LEFT then left else right
    }

    function With(d: Dir, n: T): Links<T> {
      if d == LEFT then Links(n, right) else Links(left, n)
    }
  }

  /** A tree node. The caller owns its memory, so nothing is known about the links of a
      node that is not in a tree. */
  class RbNode {
    var parent: RbNode?
    var child: Links<RbNode>
    var key: u32
    var color: Color

    constructor () {
      parent, child, key, color := null, Links(this, this), 0, Red;
    }
  }

  /** What a tree position holds: the node object, its key and its colour. */
  datatype Item = Item(node: RbNode, key: u32, color: Color)

  datatype Tree = Leaf | Node(left: Tree, item: Item, right: Tree)

  /** A node whose child in direction `d` is `near` and whose other child is `far`. */
  function Make(d: Dir, near: Tree, item: Item, far: Tree): Tree {
    if d == LEFT then Node(near, item, far) else Node(far, item, near)
  }

  function Sub(t: Tree, d: Dir): Tree
    requires t.Node?
  {
    if d == LEFT then t.left else t.right
  }

  function Painted(item: Item, c: Color): Item {
    item.(color := c)
  }

  function PaintTree(t: Tree, c: Color): Tree {
    if t == Leaf then Leaf else t.(item := Painted(t.item, c))
  }

  /** A path from the root down to a hole. The last step comes first: the hole is the child
      `d` of `item`, and `other` is the sibling of the hole. */
  datatype Path = Top | Step(d: Dir, up: Path, item: Item, other: Tree)

  function Plug(path: Path, t: Tree): Tree {
    match path
    case Top => t
    case Step(d, up, item, other) => Plug(up, Make(d, t, item, other))
  }

  /** The path that goes down `outer` and then `inner`. */
  function Compose(inner: Path, outer: Path): Path {
    match inner
    case Top => outer
    case Step(d, up, item, other) => Step(d, Compose(up, outer), item, other)
  }

  lemma {:induction false} PlugCompose(inner: Path, outer: Path, t: Tree)
    ensures Plug(Compose(inner, outer), t) == Plug(outer, Plug(inner, t))
    decreases inner
  {
    match inner
    case Top =>
    case Step(d, up, item, other) => PlugCompose(up, outer, Make(d, t, item, other));
  }

  /** The same place, seen from the parent and from the sibling. */
  lemma StepViews(path: Path, t: Tree)
    requires path.Step?
    ensures var Step(d, up, item, other) := path;
      Plug(path, t) == Plug(up, Make(d, t, item, other)) == Plug(Step(1 - d, up, item, t), other)
  {
  }

  /** Going right at `x` and then down `inner`. */
  lemma ComposeRight(inner: Path, path: Path, l: Tree, x: Item, t: Tree)
    ensures Plug(Compose(inner, Step(RIGHT, path, x, l)), t) == Plug(path, Node(l, x, Plug(inner, t)))
    ensures Compose(inner, Step(RIGHT, path, x, l)).Step?
    ensures inner.Step? ==> Compose(inner, Step(RIGHT, path, x, l)).item == inner.item
  {
    PlugCompose(inner, Step(RIGHT, path, x, l), t);
  }

  function Depth(path: Path): nat {
    match path
    case Top => 0
    case Step(_, up, _, _) => 1 + Depth(up)
  }

  // ---------- nodes ----------

  ghost function Nodes(t: Tree): set<RbNode> {
    match t
    case Leaf => {}
    case Node(l, item, r) => Nodes(l) + {item.node} + Nodes(r)
  }

  ghost function PathNodes(path: Path): set<RbNode> {
    match path
    case Top => {}
    case Step(_, up, item, other) => PathNodes(up) + {item.node} + Nodes(other)
  }

  /** No node object occurs twice. */
  ghost predicate Separate(t: Tree) {
    match t
    case Leaf => true
    case Node(l, item, r) =>
      && Separate(l) && Separate(r)
      && item.node !in Nodes(l) && item.node !in Nodes(r) && Nodes(l) !! Nodes(r)
  }

  ghost predicate PathSeparate(path: Path) {
    match path
    case Top => true
    case Step(_, up, item, other) =>
      && PathSeparate(up) && Separate(other)
      && item.node !in Nodes(other) && item.node !in PathNodes(up) && Nodes(other) !! PathNodes(up)
  }

  lemma {:induction false} PlugSeparate(path: Path, t: Tree)
    ensures Nodes(Plug(path, t)) == PathNodes(path) + Nodes(t)
    ensures Separate(Plug(path, t)) <==> PathSeparate(path) && Separate(t) && PathNodes(path) !! Nodes(t)
    decreases path
  {
    match path
    case Top =>
    case Step(d, up, item, other) => PlugSeparate(up, Make(d, t, item, other));
  }

  lemma OwnNodes(path: Path, t: Tree)
    ensures t.Node? ==> t.item.node in Nodes(t)
    ensures path.Step? ==> path.item.node in PathNodes(path)
    ensures forall c :: Nodes(PaintTree(t, c)) == Nodes(t)
  {
  }

  // ---------- key order ----------

  datatype Binding = Binding(key: u32, node: RbNode)

  ghost function Entry(item: Item): Binding {
    Binding(item.key, item.node)
  }

  ghost function InOrder(t: Tree): seq<Binding> {
    match t
    case Leaf => []
    case Node(l, item, r) => InOrder(l) + [Entry(item)] + InOrder(r)
  }

  ghost function Before(path: Path): seq<Binding> {
    match path
    case Top => []
    case Step(d, up, item, other) =>
      Before(up) + if d == LEFT then [] else InOrder(other) + [Entry(item)]
  }

  ghost function After(path: Path): seq<Binding> {
    match path
    case Top => []
    case Step(d, up, item, other) =>
      (if d == LEFT then [Entry(item)] + InOrder(other) else []) + After(up)
  }

  lemma {:induction false} PlugInOrder(path: Path, t: Tree)
    ensures InOrder(Plug(path, t)) == Before(path) + InOrder(t) + After(path)
    decreases path
  {
    match path
    case Top =>
    case Step(d, up, item, other) => PlugInOrder(up, Make(d, t, item, other));
  }

  /** A subtree may be replaced by one with the same bindings in the same order. */
  lemma PlugSameOrder(path: Path, t: Tree, t': Tree)
    requires InOrder(t) == InOrder(t')
    ensures InOrder(Plug(path, t)) == InOrder(Plug(path, t'))
  {
    PlugInOrder(path, t);
    PlugInOrder(path, t');
  }

  lemma LeafInOrder()
    ensures InOrder(Leaf) == []
  {
  }

  lemma MakeInOrder(d: Dir, near: Tree, item: Item, far: Tree)
    ensures InOrder(Make(d, near, item, far)) ==
      if d == LEFT then InOrder(near) + [Entry(item)] + InOrder(far) else InOrder(far) + [Entry(item)] + InOrder(near)
  {
  }

  lemma RotateSubtreeOrder(d: Dir, a: Tree, x: Item, b: Tree, y: Item, c: Tree, x': Item, y': Item)
    requires Entry(x) == Entry(x') && Entry(y) == Entry(y')
    ensures InOrder(Make(d, Make(d, a, x', b), y', c)) == InOrder(Make(d, a, x, Make(d, b, y, c)))
  {
    hide Make, InOrder, Entry;
    MakeInOrder(d, b, y, c);
    MakeInOrder(d, a, x, Make(d, b, y, c));
    MakeInOrder(d, a, x', b);
    MakeInOrder(d, Make(d, a, x', b), y', c);
    Regroup(InOrder(a), [Entry(x)], InOrder(b), [Entry(y)], InOrder(c));
    Regroup(InOrder(c), [Entry(y)], InOrder(b), [Entry(x)], InOrder(a));
  }

  lemma Regroup(a: seq<Binding>, x: seq<Binding>, b: seq<Binding>, y: seq<Binding>, c: seq<Binding>)
    ensures a + x + (b + y + c) == (a + x + b) + y + c
  {
  }

  /** Rotating and recolouring two nodes keeps the bindings in order. */
  lemma RotateSameOrder(path: Path, d: Dir, a: Tree, x: Item, b: Tree, y: Item, c: Tree, x': Item, y': Item)
    requires Entry(x) == Entry(x') && Entry(y) == Entry(y')
    ensures InOrder(Plug(path, Make(d, Make(d, a, x', b), y', c))) ==
      InOrder(Plug(path, Make(d, a, x, Make(d, b, y, c))))
  {
    RotateSubtreeOrder(d, a, x, b, y, c, x', y');
    PlugSameOrder(path, Make(d, a, x, Make(d, b, y, c)), Make(d, Make(d, a, x', b), y', c));
  }

  ghost predicate Sorted(s: seq<Binding>) {
    forall i, j :: 0 <= i < j < |s| ==> s[i].key < s[j].key
  }

  // ---------- red-black balance ----------

  function Shade(t: Tree): Color {
    if t == Leaf then Black else t.item.color
  }

  function Weight(c: Color): nat {
    if c == Black then 1 else 0
  }

  /** Number of black nodes on the leftmost path, and on every path when `RedBlack` holds. */
  function BlackHeight(t: Tree): nat {
    match t
    case Leaf => 0
    case Node(l, item, _) => BlackHeight(l) + Weight(item.color)
  }

  /** Equal black height on all paths and no red node with a red child. */
  ghost predicate RedBlack(t: Tree) {
    match t
    case Leaf => true
    case Node(l, item, r) =>
      && RedBlack(l) && RedBlack(r) && BlackHeight(l) == BlackHeight(r)
      && (item.color == Red ==> Shade(l) == Shade(r) == Black)
  }

  /** What `path` must be for a balanced tree of black height `b` to fit into its hole. */
  ghost predicate Fits(path: Path, b: nat) {
    match path
    case Top => true
    case Step(_, up, item, other) =>
      && RedBlack(other) && BlackHeight(other) == b
      && (item.color == Red ==> Shade(other) == Black && BlackHole(up) && up.Step?)
      && Fits(up, b + Weight(item.color))
  }

  /** The hole has no red parent. */
  predicate BlackHole(path: Path) {
    path.Step? ==> path.item.color == Black
  }

  /** State of the insertion fix-up: the only fault is a red node, the root of `t`, that may
      be the root of the tree or have a red parent. */
  ghost predicate RedFault(path: Path, t: Tree) {
    RedBlack(t) && Shade(t) == Red && Fits(path, BlackHeight(t))
  }

  /** A red leaf in a balanced tree is the only fault. */
  lemma PlantFault(path: Path, item: Item)
    requires RedBlack(Plug(path, Leaf)) && Shade(Plug(path, Leaf)) == Black && item.color == Red
    ensures RedFault(path, Node(Leaf, item, Leaf))
  {
    PlugFits(path, Leaf);
  }

  /** A red parent is not the root: there is a grandparent, and it is black. */
  lemma FaultHasGrandparent(path: Path, t: Tree)
    requires RedFault(path, t) && path.Step? && path.item.color == Red
    ensures path.up.Step? && path.up.item.color == Black
  {
  }

  /** Turning an inner grandchild into an outer one keeps the fault where it is. */
  lemma StraightenKeepsFault(path: Path, t: Tree, path': Path, t': Tree)
    requires RedFault(path, t) && path.Step? && path.item.color == Red && path.d == 1 - path.up.d
    requires t' == Make(1 - path.d, path.other, path.item, Sub(t, 1 - path.d))
    requires path' == Step(1 - path.d, path.up, t.item, Sub(t, path.d))
    ensures RedFault(path', t') && path'.item.color == Red && Depth(path') == Depth(path)
  {
  }

  /** With a red uncle, recolouring moves the fault two levels up. */
  lemma RecolorMovesFault(path: Path, t: Tree, t': Tree)
    requires RedFault(path, t) && path.Step? && path.item.color == Red && Shade(path.up.other) == Red
    requires t' == Make(path.up.d, Make(path.d, t, Painted(path.item, Black), path.other),
                        Painted(path.up.item, Red), PaintTree(path.up.other, Black))
    ensures RedFault(path.up.up, t') && Depth(path.up.up) < Depth(path)
    ensures InOrder(Plug(path.up.up, t')) == InOrder(Plug(path, t))
  {
    var Step(d1, Step(d2, up, g, uncle), p, sib) := path;
    var b := BlackHeight(t);
    assert Fits(path.up, b);
    assert RedBlack(uncle) && BlackHeight(uncle) == b && Fits(up, b + 1);
    var uncle', pt' := PaintTree(uncle, Black), Make(d1, t, Painted(p, Black), sib);
    assert RedBlack(uncle') && BlackHeight(uncle') == b + 1;
    assert RedBlack(pt') && BlackHeight(pt') == b + 1;
    var t1 := Make(d2, Make(d1, t, p, sib), g, uncle);
    assert InOrder(Make(d1, t, p, sib)) == InOrder(pt') && InOrder(uncle) == InOrder(uncle');
    assert InOrder(t1) == InOrder(t');
    PlugSameOrder(path.up.up, t1, t');
  }

  /** With a black uncle, lifting the parent over the grandparent ends the fault. */
  lemma LiftEndsFault(path: Path, t: Tree, path': Path)
    requires RedFault(path, t) && path.Step? && path.item.color == Red
    requires path.d == path.up.d && Shade(path.up.other) == Black
    requires path' == Step(path.d, path.up.up, Painted(path.item, Black),
                           Make(1 - path.d, path.up.other, Painted(path.up.item, Red), path.other))
    ensures RedFault(path', t) && BlackHole(path') && Depth(path') < Depth(path)
    ensures InOrder(Plug(path', t)) == InOrder(Plug(path, t))
  {
    var Step(d, Step(_, up, g, uncle), p, sib) := path;
    var b := BlackHeight(t);
    assert Fits(path.up, b);
    assert RedBlack(uncle) && BlackHeight(uncle) == b && Fits(up, b + 1);
    var far := Make(1 - d, uncle, Painted(g, Red), sib);
    assert RedBlack(far) && BlackHeight(far) == b;
    LiftInOrder(path, t, path');
  }

  lemma LiftInOrder(path: Path, t: Tree, path': Path)
    requires path.Step? && path.up.Step? && path.d == path.up.d
    requires path' == Step(path.d, path.up.up, Painted(path.item, Black),
                           Make(1 - path.d, path.up.other, Painted(path.up.item, Red), path.other))
    ensures InOrder(Plug(path', t)) == InOrder(Plug(path, t))
  {
    var Step(d, Step(_, up, g, uncle), p, sib) := path;
    RotateSameOrder(up, 1 - d, uncle, g, sib, p, t, Painted(g, Red), Painted(p, Black));
    assert Plug(path, t) == Plug(up, Make(1 - d, uncle, g, Make(1 - d, sib, p, t)));
  }

  lemma {:induction false} FitsPlug(path: Path, t: Tree)
    requires Fits(path, BlackHeight(t)) && RedBlack(t)
    requires Shade(t) == Black || BlackHole(path)
    ensures RedBlack(Plug(path, t))
    ensures path.Step? ==> Shade(Plug(path, t)) == Black
    decreases path
  {
    match path
    case Top =>
    case Step(d, up, item, other) => FitsPlug(up, Make(d, t, item, other));
  }

  /** Without a red parent, painting the root black ends the fault. */
  lemma BlackRootEndsFault(path: Path, t: Tree)
    requires RedFault(path, t) && BlackHole(path)
    ensures RedBlack(PaintTree(Plug(path, t), Black)) && Plug(path, t).Node?
    ensures InOrder(PaintTree(Plug(path, t), Black)) == InOrder(Plug(path, t))
  {
    FitsPlug(path, t);
    PlugSeparate(path, t);
    assert t.item.node in Nodes(Plug(path, t));
  }

  lemma {:induction false} PlugFits(path: Path, t: Tree)
    requires RedBlack(Plug(path, t)) && Shade(Plug(path, t)) == Black
    ensures RedBlack(t) && Fits(path, BlackHeight(t))
    ensures Shade(t) == Red ==> path.Step? && path.item.color == Black
    decreases path
  {
    match path
    case Top =>
    case Step(d, up, item, other) => PlugFits(up, Make(d, t, item, other));
  }

  // ---------- height ----------

  function Height(t: Tree): nat {
    match t
    case Leaf => 0
    case Node(l, _, r) => 1 + if Height(l) < Height(r) then Height(r) else Height(l)
  }

  function Size(t: Tree): nat {
    match t
    case Leaf => 0
    case Node(l, _, r) => Size(l) + 1 + Size(r)
  }

  function Pow2(n: nat): nat {
    if n == 0 then 1 else 2 * Pow2(n - 1)
  }

  lemma {:induction false} Pow2Monotone(m: nat, n: nat)
    requires m <= n
    ensures Pow2(m) <= Pow2(n)
    decreases n
  {
    if m < n { Pow2Monotone(m, n - 1); }
  }

  lemma {:induction false} Pow2Sum(m: nat, n: nat)
    ensures Pow2(m + n) == Pow2(m) * Pow2(n)
    decreases m
  {
    if m > 0 { Pow2Sum(m - 1, n); }
  }

  /** A balanced tree of black height b has at least 2^b - 1 nodes. */
  lemma {:induction false} BlackHeightBoundsSize(t: Tree)
    requires RedBlack(t)
    ensures Pow2(BlackHeight(t)) <= Size(t) + 1
  {
    match t
    case Leaf =>
    case Node(l, item, r) =>
      BlackHeightBoundsSize(l);
      BlackHeightBoundsSize(r);
  }

  /** At least every second node on a path is black. */
  lemma {:induction false} BlackHeightBoundsHeight(t: Tree)
    requires RedBlack(t)
    ensures Height(t) <= 2 * BlackHeight(t) + if Shade(t) == Red then 1 else 0
  {
    match t
    case Leaf =>
    case Node(l, item, r) =>
      BlackHeightBoundsHeight(l);
      BlackHeightBoundsHeight(r);
  }

  /** height <= 2 * log2(size + 1), in the form 2^height <= (size + 1)^2. */
  lemma HeightBound(t: Tree)
    requires RedBlack(t) && Shade(t) == Black
    ensures Pow2(Height(t)) <= (Size(t) + 1) * (Size(t) + 1)
  {
    var b := BlackHeight(t);
    BlackHeightBoundsSize(t);
    BlackHeightBoundsHeight(t);
    Pow2Monotone(Height(t), b + b);
    Pow2Sum(b, b);
    SquareMonotone(Pow2(b), Size(t) + 1);
  }

  lemma SquareMonotone(x: nat, y: nat)
    requires x <= y
    ensures x * x <= y * y
  {
    assert x * x <= x * y <= y * y;
  }

  lemma {:induction false} SizeInOrder(t: Tree)
    ensures |InOrder(t)| == Size(t)
  {
    match t
    case Leaf =>
    case Node(l, _, r) =>
      SizeInOrder(l);
      SizeInOrder(r);
  }
}
