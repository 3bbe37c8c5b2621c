/** How linked node objects spell out a tree. A store is a snapshot of the fields of a set of
    nodes; `nil` is the one sentinel that stands for every leaf. */
module RbStore {
  import opened Words
  import opened RbShape

  datatype Cell = Cell(parent: RbNode?, child: Links<RbNode>, key: u32, color: Color) {
    function WithChild(d: Dir, n: RbNode): Cell {
      this.(child := child.With(d, n))
    }
  }

  type Store = map<RbNode, Cell>

  /** The object that stands for `t`: its root node, or the sentinel. */
  function Root(t: Tree, nil: RbNode): RbNode {
    if t == Leaf then nil else t.item.node
  }

  /** The parent of whatever is in the hole of `path`, when the root's parent is `base`. */
  function Parent(path: Path, base: RbNode): RbNode {
    if path == Top then base else path.item.node
  }

  /** The nodes of `t` are linked as `t` says, and the root's parent is `p`. */
  ghost predicate Linked(h: Store, nil: RbNode, t: Tree, p: RbNode) {
    match t
    case Leaf => true
    case Node(l, item, r) =>
      && item.node != nil && item.node in h
      && h[item.node] == Cell(p, Links(Root(l, nil), Root(r, nil)), item.key, item.color)
      && Linked(h, nil, l, item.node) && Linked(h, nil, r, item.node)
  }

  /** The node of `item` holds its key and colour, has `n` and `m` as children in direction `d`
      and opposite to it, and `p` as parent. */
  ghost predicate Holds(h: Store, nil: RbNode, item: Item, d: Dir, n: RbNode, m: RbNode, p: RbNode) {
    && item.node != nil && item.node in h
    && h[item.node].child.At(d) == n && h[item.node].child.At(1 - d) == m
    && h[item.node].parent == p && h[item.node].key == item.key && h[item.node].color == item.color
  }

  lemma MakeLinked(h: Store, nil: RbNode, d: Dir, near: Tree, item: Item, far: Tree, p: RbNode)
    ensures Linked(h, nil, Make(d, near, item, far), p)
       <==> (Holds(h, nil, item, d, Root(near, nil), Root(far, nil), p)
             && Linked(h, nil, near, item.node) && Linked(h, nil, far, item.node))
  {
  }

  /** The nodes of `path` are linked as `path` says, and the hole holds `n`. */
  ghost predicate PathLinked(h: Store, nil: RbNode, path: Path, n: RbNode, base: RbNode) {
    match path
    case Top => true
    case Step(d, up, item, other) =>
      && Holds(h, nil, item, d, n, Root(other, nil), Parent(up, base))
      && Linked(h, nil, other, item.node)
      && PathLinked(h, nil, up, item.node, base)
  }

  /** A linked tree is a linked path around a linked subtree. */
  lemma {:induction false} PlugLinked(h: Store, nil: RbNode, path: Path, t: Tree, base: RbNode)
    ensures Linked(h, nil, Plug(path, t), base)
       <==> PathLinked(h, nil, path, Root(t, nil), base) && Linked(h, nil, t, Parent(path, base))
    decreases path
  {
    match path
    case Top =>
    case Step(d, up, item, other) => PlugLinked(h, nil, up, Make(d, t, item, other), base);
  }

  ghost predicate Agree(h: Store, h': Store, s: set<RbNode>) {
    forall n :: n in s && n in h ==> n in h' && h'[n] == h[n]
  }

  lemma {:induction false} LinkedFrame(h: Store, h': Store, nil: RbNode, t: Tree, p: RbNode)
    requires Linked(h, nil, t, p) && Agree(h, h', Nodes(t))
    ensures Linked(h', nil, t, p)
  {
    match t
    case Leaf =>
    case Node(l, item, r) =>
      LinkedFrame(h, h', nil, l, item.node);
      LinkedFrame(h, h', nil, r, item.node);
  }

  /** Only the root of `t` gets a new parent. */
  lemma LinkedReparent(h: Store, h': Store, nil: RbNode, t: Tree, p: RbNode, q: RbNode)
    requires Linked(h, nil, t, p) && Separate(t)
    requires t.Node? ==> t.item.node in h' && h'[t.item.node] == h[t.item.node].(parent := q)
    requires t.Node? ==> Agree(h, h', Nodes(t) - {t.item.node})
    ensures Linked(h', nil, t, q)
  {
    match t
    case Leaf =>
    case Node(l, item, r) =>
      LinkedFrame(h, h', nil, l, item.node);
      LinkedFrame(h, h', nil, r, item.node);
  }

  lemma {:induction false} PathLinkedFrame(h: Store, h': Store, nil: RbNode, path: Path, n: RbNode, base: RbNode)
    requires PathLinked(h, nil, path, n, base) && Agree(h, h', PathNodes(path))
    ensures PathLinked(h', nil, path, n, base)
    decreases path
  {
    match path
    case Top =>
    case Step(d, up, item, other) =>
      LinkedFrame(h, h', nil, other, item.node);
      PathLinkedFrame(h, h', nil, up, item.node, base);
  }

  /** Only the node just above the hole changes: its child link is redirected to `n'`. */
  lemma PathRedirect(h: Store, h': Store, nil: RbNode, path: Path, n: RbNode, n': RbNode, base: RbNode)
    requires PathLinked(h, nil, path, n, base) && PathSeparate(path)
    requires path.Step? ==>
      && path.item.node in h'
      && h'[path.item.node] == h[path.item.node].WithChild(path.d, n')
      && Agree(h, h', PathNodes(path) - {path.item.node})
    ensures PathLinked(h', nil, path, n', base)
  {
    match path
    case Top =>
    case Step(d, up, item, other) =>
      LinkedFrame(h, h', nil, other, item.node);
      PathLinkedFrame(h, h', nil, up, item.node, base);
  }

  /** `node == node->parent->left` picks the right direction: the sibling is another object
      than what is in the hole, even when the hole holds the sentinel. */
  lemma DirectionCorrect(h: Store, nil: RbNode, path: Path, n: RbNode, base: RbNode)
    requires PathLinked(h, nil, path, n, base) && path.Step?
    requires n != Root(path.other, nil)
    ensures (if n == h[path.item.node].child.left then LEFT else RIGHT) == path.d
  {
  }

  /** The state of a tree: its nodes and the sentinel, linked as `w` says. */
  ghost predicate Represents(h: Store, nil: RbNode, root: RbNode, w: Tree) {
    && nil in h && nil !in Nodes(w)
    && h[nil].color == Black
    && Separate(w) && Linked(h, nil, w, nil) && root == Root(w, nil)
  }

  lemma RepresentsRoot(h: Store, nil: RbNode, root: RbNode, w: Tree)
    requires Represents(h, nil, root, w)
    ensures Separate(w) && root == Root(w, nil)
  {
  }

  lemma {:induction false} LinkedDomain(h: Store, nil: RbNode, t: Tree, p: RbNode)
    requires Linked(h, nil, t, p)
    ensures Nodes(t) <= h.Keys && nil !in Nodes(t)
  {
    match t
    case Leaf =>
    case Node(l, item, r) =>
      LinkedDomain(h, nil, l, item.node);
      LinkedDomain(h, nil, r, item.node);
  }

  /** The nodes just below and just above the hole of a represented tree. */
  lemma AroundHole(h: Store, nil: RbNode, root: RbNode, path: Path, t: Tree)
    requires Represents(h, nil, root, Plug(path, t))
    ensures t.Node? ==> Holds(h, nil, t.item, LEFT, Root(t.left, nil), Root(t.right, nil), Parent(path, nil))
    ensures t.Node? ==>
      (Root(t.left, nil) == nil <==> t.left == Leaf) && (Root(t.right, nil) == nil <==> t.right == Leaf)
    ensures path.Step? ==>
      && Holds(h, nil, path.item, path.d, Root(t, nil), Root(path.other, nil), Parent(path.up, nil))
      && (Root(t, nil) != Root(path.other, nil) ==>
            path.d == if Root(t, nil) == h[path.item.node].child.left then LEFT else RIGHT)
      && (t.Node? ==> Root(t, nil) != Root(path.other, nil))
    ensures path == Top ==> root == Root(t, nil)
    ensures path.Step? ==> root != Root(t, nil)
  {
    PlugLinked(h, nil, path, t, nil);
    PlugSeparate(path, t);
    if path.Step? {
      RootInPath(path, t, nil);
    }
  }

  lemma {:induction false} RootInPath(path: Path, t: Tree, nil: RbNode)
    requires path.Step?
    ensures Root(Plug(path, t), nil) in PathNodes(path)
    decreases path
  {
    if path.up.Step? { RootInPath(path.up, Make(path.d, t, path.item, path.other), nil); }
  }

  lemma {:induction false} ListedNodes(h: Store, nil: RbNode, t: Tree, p: RbNode)
    requires Linked(h, nil, t, p)
    ensures forall b :: b in InOrder(t) ==> b.node in Nodes(t) && b.node != nil && b.node in h && h[b.node].key == b.key
  {
    match t
    case Leaf =>
    case Node(l, item, r) =>
      ListedNodes(h, nil, l, item.node);
      ListedNodes(h, nil, r, item.node);
  }

  // ---------- one colour ----------

  lemma PaintRepresents(h: Store, nil: RbNode, root: RbNode, path: Path, t: Tree, c: Color)
    requires t.Node? && Represents(h, nil, root, Plug(path, t))
    ensures t.item.node in h
    ensures Represents(h[t.item.node := h[t.item.node].(color := c)], nil, root, Plug(path, PaintTree(t, c)))
  {
    var n := t.item.node;
    var t' := PaintTree(t, c);
    PlugLinked(h, nil, path, t, nil);
    PlugSeparate(path, t);
    PlugSeparate(path, t');
    var h' := h[n := h[n].(color := c)];
    PathLinkedFrame(h, h', nil, path, n, nil);
    LinkedFrame(h, h', nil, t.left, n);
    LinkedFrame(h, h', nil, t.right, n);
    PlugLinked(h', nil, path, t', nil);
    RootPlug(path, t, t', nil);
  }

  /** The root of a plugged tree depends on the subtree only through its root. */
  lemma {:induction false} RootPlug(path: Path, t: Tree, t': Tree, nil: RbNode)
    requires Root(t, nil) == Root(t', nil) || path.Step?
    ensures Root(Plug(path, t), nil) == Root(Plug(path, t'), nil)
    decreases path
  {
    match path
    case Top =>
    case Step(d, up, item, other) => RootPlug(up, Make(d, t, item, other), Make(d, t', item, other), nil);
  }

  // ---------- rotation ----------

  /** Rotating `x`, whose child opposite to `d` is `y`, towards `d`: `y` takes the place of
      `x`, and `b` moves from below `y` to below `x`. */
  function Unrotated(d: Dir, a: Tree, x: Item, b: Tree, y: Item, c: Tree): Tree {
    Make(d, a, x, Make(d, b, y, c))
  }

  function Rotated(d: Dir, a: Tree, x: Item, b: Tree, y: Item, c: Tree): Tree {
    Make(d, Make(d, a, x, b), y, c)
  }

  lemma RotationKeepsOrder(path: Path, d: Dir, a: Tree, x: Item, b: Tree, y: Item, c: Tree)
    ensures InOrder(Plug(path, Rotated(d, a, x, b, y, c))) == InOrder(Plug(path, Unrotated(d, a, x, b, y, c)))
    ensures Nodes(Plug(path, Rotated(d, a, x, b, y, c))) == Nodes(Plug(path, Unrotated(d, a, x, b, y, c)))
  {
    var t, t' := Unrotated(d, a, x, b, y, c), Rotated(d, a, x, b, y, c);
    RotateSameOrder(path, d, a, x, b, y, c, x, y);
    PlugSeparate(path, t);
    PlugSeparate(path, t');
  }

  /** The link writes that `rotate_subtree` makes in total. */
  ghost predicate RotationWrites(h: Store, h': Store, nil: RbNode, path: Path, d: Dir, x: RbNode, b: Tree, y: RbNode) {
    && h.Keys == h'.Keys
    && {x, y} + (if b.Node? then {b.item.node} else {}) + (if path.Step? then {path.item.node} else {}) <= h.Keys
    && h'[x] == h[x].WithChild(1 - d, Root(b, nil)).(parent := y)
    && h'[y] == h[y].WithChild(d, x).(parent := h[x].parent)
    && (b.Node? ==> h'[b.item.node] == h[b.item.node].(parent := x))
    && (path.Step? ==> h'[path.item.node] == h[path.item.node].WithChild(path.d, y))
    && (forall n :: n in h && n != x && n != y && (b.Node? ==> n != b.item.node) && (path.Step? ==> n != path.item.node)
          ==> h'[n] == h[n])
  }

  /** Two nodes `x` and `y` and three subtrees are different objects. */
  ghost predicate PairSeparate(a: Tree, x: RbNode, b: Tree, y: RbNode, c: Tree) {
    && Separate(a) && Separate(b) && Separate(c)
    && x != y
    && x !in Nodes(a) && x !in Nodes(b) && x !in Nodes(c)
    && y !in Nodes(a) && y !in Nodes(b) && y !in Nodes(c)
    && Nodes(a) !! Nodes(b) && Nodes(a) !! Nodes(c) && Nodes(b) !! Nodes(c)
  }

  lemma MakeSeparate(d: Dir, near: Tree, item: Item, far: Tree)
    ensures Nodes(Make(d, near, item, far)) == Nodes(near) + {item.node} + Nodes(far)
    ensures Separate(Make(d, near, item, far))
       <==> Separate(near) && Separate(far) && item.node !in Nodes(near) && item.node !in Nodes(far)
            && Nodes(near) !! Nodes(far)
  {
  }

  lemma UnrotatedSeparate(d: Dir, a: Tree, x: Item, b: Tree, y: Item, c: Tree)
    ensures Nodes(Unrotated(d, a, x, b, y, c)) == Nodes(a) + {x.node} + (Nodes(b) + {y.node} + Nodes(c))
    ensures Separate(Unrotated(d, a, x, b, y, c)) <==> PairSeparate(a, x.node, b, y.node, c)
  {
    hide Make, Separate, Nodes;
    MakeSeparate(d, b, y, c);
    MakeSeparate(d, a, x, Make(d, b, y, c));
  }

  lemma RotatedSeparate(d: Dir, a: Tree, x: Item, b: Tree, y: Item, c: Tree)
    ensures Nodes(Rotated(d, a, x, b, y, c)) == Nodes(a) + {x.node} + (Nodes(b) + {y.node} + Nodes(c))
    ensures Separate(Rotated(d, a, x, b, y, c)) <==> PairSeparate(a, x.node, b, y.node, c)
  {
    hide Make, Separate, Nodes;
    MakeSeparate(d, a, x, b);
    MakeSeparate(d, Make(d, a, x, b), y, c);
  }

  /** ... and they are different from the nodes of the path above them and from the sentinel. */
  ghost predicate Apart(nil: RbNode, path: Path, a: Tree, x: RbNode, b: Tree, y: RbNode, c: Tree) {
    var inside := Nodes(a) + {x} + (Nodes(b) + {y} + Nodes(c));
    && PathSeparate(path) && PairSeparate(a, x, b, y, c)
    && PathNodes(path) !! inside
    && nil !in inside && nil !in PathNodes(path)
  }

  lemma UnrotatedApart(nil: RbNode, path: Path, d: Dir, a: Tree, x: Item, b: Tree, y: Item, c: Tree)
    ensures Separate(Plug(path, Unrotated(d, a, x, b, y, c))) && nil !in Nodes(Plug(path, Unrotated(d, a, x, b, y, c)))
       <==> Apart(nil, path, a, x.node, b, y.node, c)
  {
    hide Unrotated, PairSeparate, Separate, Nodes, Plug;
    UnrotatedSeparate(d, a, x, b, y, c);
    PlugSeparate(path, Unrotated(d, a, x, b, y, c));
  }

  lemma RotatedApart(nil: RbNode, path: Path, d: Dir, a: Tree, x: Item, b: Tree, y: Item, c: Tree)
    ensures Separate(Plug(path, Rotated(d, a, x, b, y, c))) && nil !in Nodes(Plug(path, Rotated(d, a, x, b, y, c)))
       <==> Apart(nil, path, a, x.node, b, y.node, c)
  {
    hide Rotated, PairSeparate, Separate, Nodes, Plug;
    RotatedSeparate(d, a, x, b, y, c);
    PlugSeparate(path, Rotated(d, a, x, b, y, c));
  }

  /** Two linked nodes, `lower` the child of `upper` in direction `d`. */
  ghost predicate PairLinked(h: Store, nil: RbNode, path: Path, d: Dir,
                             upper: Item, far: Tree, lower: Item, near: Tree, other: Tree) {
    && Holds(h, nil, upper, d, lower.node, Root(far, nil), Parent(path, nil))
    && Holds(h, nil, lower, d, Root(near, nil), Root(other, nil), upper.node)
    && Linked(h, nil, far, upper.node) && Linked(h, nil, near, lower.node) && Linked(h, nil, other, lower.node)
    && PathLinked(h, nil, path, upper.node, nil)
  }

  lemma UnrotatedLinked(h: Store, nil: RbNode, path: Path, d: Dir, a: Tree, x: Item, b: Tree, y: Item, c: Tree)
    ensures Linked(h, nil, Plug(path, Unrotated(d, a, x, b, y, c)), nil)
       <==> PairLinked(h, nil, path, 1 - d, x, a, y, c, b)
  {
    hide Linked, PathLinked, Holds, Plug;
    PlugLinked(h, nil, path, Unrotated(d, a, x, b, y, c), nil);
    MakeLinked(h, nil, 1 - d, Make(d, b, y, c), x, a, Parent(path, nil));
    MakeLinked(h, nil, 1 - d, c, y, b, x.node);
    assert Make(1 - d, c, y, b) == Make(d, b, y, c);
    assert Make(1 - d, Make(d, b, y, c), x, a) == Unrotated(d, a, x, b, y, c);
  }

  lemma RotatedLinked(h: Store, nil: RbNode, path: Path, d: Dir, a: Tree, x: Item, b: Tree, y: Item, c: Tree)
    ensures Linked(h, nil, Plug(path, Rotated(d, a, x, b, y, c)), nil)
       <==> PairLinked(h, nil, path, d, y, c, x, a, b)
  {
    hide Linked, PathLinked, Holds, Plug;
    PlugLinked(h, nil, path, Rotated(d, a, x, b, y, c), nil);
    MakeLinked(h, nil, d, Make(d, a, x, b), y, c, Parent(path, nil));
    MakeLinked(h, nil, d, a, x, b, y.node);
  }

  /** What `rotate_subtree` relies on when it starts. */
  ghost predicate RotationSite(h: Store, nil: RbNode, path: Path, d: Dir, x: RbNode, b: Tree, y: RbNode) {
    && x in h && y in h && x != y && x != nil && y != nil
    && h[x].parent == Parent(path, nil) && h[x].child.At(1 - d) == y && h[y].child.At(d) == Root(b, nil)
    && (b.Node? ==> b.item.node in h && b.item.node != x && b.item.node != y && b.item.node != nil)
    && (path.Step? ==>
          && path.item.node in h && path.item.node !in {x, y, nil, Root(b, nil)}
          && path.d == if x == h[path.item.node].child.left then LEFT else RIGHT)
  }

  lemma RotationStarts(h: Store, nil: RbNode, root: RbNode, path: Path,
                       d: Dir, a: Tree, x: Item, b: Tree, y: Item, c: Tree)
    requires Represents(h, nil, root, Plug(path, Unrotated(d, a, x, b, y, c)))
    ensures RotationSite(h, nil, path, d, x.node, b, y.node)
  {
    var w := Plug(path, Unrotated(d, a, x, b, y, c));
    LinkedDomain(h, nil, w, nil);
    UnrotatedApart(nil, path, d, a, x, b, y, c);
    UnrotatedLinked(h, nil, path, d, a, x, b, y, c);
    if path.Step? { DirectionCorrect(h, nil, path, x.node, nil); }
  }

  lemma RotationRelinks(h: Store, h': Store, nil: RbNode, path: Path,
                        d: Dir, a: Tree, x: Item, b: Tree, y: Item, c: Tree)
    requires Apart(nil, path, a, x.node, b, y.node, c)
    requires PairLinked(h, nil, path, 1 - d, x, a, y, c, b)
    requires RotationWrites(h, h', nil, path, d, x.node, b, y.node)
    ensures PairLinked(h', nil, path, d, y, c, x, a, b)
  {
    hide Nodes, PathNodes, Linked, PathLinked, Separate, PathSeparate;
    OwnNodes(path, b);
    PathRedirect(h, h', nil, path, x.node, y.node, nil);
    LinkedFrame(h, h', nil, a, x.node);
    LinkedReparent(h, h', nil, b, y.node, x.node);
    LinkedFrame(h, h', nil, c, y.node);
  }

  lemma RotationRepresents(h: Store, h': Store, nil: RbNode, root: RbNode, root': RbNode, path: Path,
                           d: Dir, a: Tree, x: Item, b: Tree, y: Item, c: Tree)
    requires Represents(h, nil, root, Plug(path, Unrotated(d, a, x, b, y, c)))
    requires RotationWrites(h, h', nil, path, d, x.node, b, y.node)
    requires root' == if path == Top then y.node else root
    ensures Represents(h', nil, root', Plug(path, Rotated(d, a, x, b, y, c)))
  {
    UnrotatedApart(nil, path, d, a, x, b, y, c);
    UnrotatedLinked(h, nil, path, d, a, x, b, y, c);
    RotationRelinks(h, h', nil, path, d, a, x, b, y, c);
    RotatedLinked(h', nil, path, d, a, x, b, y, c);
    RotatedApart(nil, path, d, a, x, b, y, c);
    if path.Step? { RootPlug(path, Unrotated(d, a, x, b, y, c), Rotated(d, a, x, b, y, c), nil); }
  }

  // ---------- putting in a node ----------

  /** A node outside the store becomes the subtree at an empty hole. */
  lemma PlantRepresents(h: Store, h': Store, nil: RbNode, root: RbNode, root': RbNode, path: Path, item: Item)
    requires Represents(h, nil, root, Plug(path, Leaf))
    requires item.node !in h && h'.Keys == h.Keys + {item.node}
    requires h'[item.node] == Cell(Parent(path, nil), Links(nil, nil), item.key, item.color)
    requires path.Step? ==> path.item.node in h && h'[path.item.node] == h[path.item.node].WithChild(path.d, item.node)
    requires forall n :: n in h && (path.Step? ==> n != path.item.node) ==> h'[n] == h[n]
    requires root' == if path == Top then item.node else root
    ensures Represents(h', nil, root', Plug(path, Node(Leaf, item, Leaf)))
  {
    var t := Node(Leaf, item, Leaf);
    LinkedDomain(h, nil, Plug(path, Leaf), nil);
    PlugLinked(h, nil, path, Leaf, nil);
    PlugSeparate(path, Leaf);
    PlugSeparate(path, t);
    PathRedirect(h, h', nil, path, nil, item.node, nil);
    PlugLinked(h', nil, path, t, nil);
    if path.Step? {
      RootPlug(path, Leaf, t, nil);
      RootInPath(path, Leaf, nil);
    }
    assert Nodes(t) == {item.node} && Separate(t);
  }

  // ---------- taking out a node ----------

  /** The writes of `transplant`: `b` takes the place of what was in the hole of `path`. */
  ghost function Transplanted(h: Store, nil: RbNode, path: Path, b: RbNode): Store
    requires b in h && (path.Step? ==> path.item.node in h)
  {
    var h1 := if path == Top then h else h[path.item.node := h[path.item.node].WithChild(path.d, b)];
    h1[b := h1[b].(parent := Parent(path, nil))]
  }

  /** A part `s` of the subtree at a hole takes the place of the whole. */
  lemma TransplantRepresents(h: Store, nil: RbNode, root: RbNode, root': RbNode, path: Path, t: Tree, s: Tree,
                             q: RbNode)
    requires Represents(h, nil, root, Plug(path, t))
    requires Nodes(s) <= Nodes(t) && Separate(s) && Linked(h, nil, s, q)
    requires root' == if path == Top then Root(s, nil) else root
    requires Root(s, nil) in h && (path.Step? ==> path.item.node in h)
    ensures Represents(Transplanted(h, nil, path, Root(s, nil)), nil, root', Plug(path, s))
  {
    PlugLinked(h, nil, path, t, nil);
    PlugSeparate(path, t);
    PlugSeparate(path, s);
    TransplantLinks(h, nil, path, Root(t, nil), s, q);
    PlugLinked(Transplanted(h, nil, path, Root(s, nil)), nil, path, s, nil);
    if path.Step? { RootPlug(path, t, s, nil); }
  }

  lemma TransplantLinks(h: Store, nil: RbNode, path: Path, n: RbNode, s: Tree, q: RbNode)
    requires PathLinked(h, nil, path, n, nil) && Linked(h, nil, s, q)
    requires PathSeparate(path) && Separate(s) && PathNodes(path) !! Nodes(s)
    requires nil !in PathNodes(path) && nil !in Nodes(s)
    requires Root(s, nil) in h && (path.Step? ==> path.item.node in h)
    ensures var h' := Transplanted(h, nil, path, Root(s, nil));
      PathLinked(h', nil, path, Root(s, nil), nil) && Linked(h', nil, s, Parent(path, nil))
  {
    hide Nodes, PathNodes, Linked, PathLinked, Separate, PathSeparate;
    var h' := Transplanted(h, nil, path, Root(s, nil));
    OwnNodes(path, s);
    PathRedirect(h, h', nil, path, n, Root(s, nil), nil);
    LinkedReparent(h, h', nil, s, q, Parent(path, nil));
  }

  /** What is needed of the node in the hole before it is transplanted. */
  ghost predicate Replaceable(h: Store, nil: RbNode, path: Path, a: RbNode) {
    && a in h && nil in h && a != nil && h[a].parent == Parent(path, nil)
    && (path.Step? ==>
          && path.item.node in h && path.item.node != nil
          && path.d == if a == h[path.item.node].child.left then LEFT else RIGHT)
  }

  /** A node with a sentinel as one child gives way to its other child. */
  lemma SpliceOutRepresents(h: Store, nil: RbNode, root: RbNode, path: Path, t: Tree, dir: Dir)
    requires Represents(h, nil, root, Plug(path, t)) && t.Node? && Sub(t, 1 - dir) == Leaf
    ensures var s, x := Sub(t, dir), t.item.node;
      && Replaceable(h, nil, path, x)
      && h[x].child.At(dir) == Root(s, nil) && Root(s, nil) in h
      && Nodes(Plug(path, s)) + {nil} == Nodes(Plug(path, t)) + {nil} - {x}
      && Represents(Transplanted(h, nil, path, Root(s, nil)), nil, if path == Top then Root(s, nil) else root,
           Plug(path, s))
  {
    var s := Sub(t, dir);
    AroundHole(h, nil, root, path, t);
    PlugLinked(h, nil, path, t, nil);
    PlugSeparate(path, t);
    PlugSeparate(path, s);
    assert Nodes(t) == Nodes(s) + {t.item.node};
    LinkedDomain(h, nil, t, Parent(path, nil));
    assert s.Node? ==> s.item.node in Nodes(t);
    TransplantRepresents(h, nil, root, if path == Top then Root(s, nil) else root, path, t, s, t.item.node);
  }

  /** Fewer objects in the store do no harm as long as the tree's are there. */
  lemma ForgetRepresents(h: Store, h': Store, nil: RbNode, root: RbNode, w: Tree)
    requires Represents(h, nil, root, w) && nil in h' && h'[nil].color == Black
    requires Agree(h, h', Nodes(w))
    ensures Represents(h', nil, root, w)
  {
    LinkedFrame(h, h', nil, w, nil);
  }

  /** The hole of `path` still holds `x` with left subtree `l`, and `y` has been prepared to
      take over with right subtree `r`. */
  ghost predicate Prepared(h: Store, nil: RbNode, path: Path, x: RbNode, l: Tree, y: RbNode, r: Tree) {
    && x in h && y in h && nil in h && h[nil].color == Black
    && x != nil && y != nil && x != y
    && h[x].parent == Parent(path, nil) && h[x].child.left == Root(l, nil)
    && h[y].child.right == Root(r, nil)
    && PathLinked(h, nil, path, x, nil) && Linked(h, nil, l, x) && Linked(h, nil, r, y)
    && PathSeparate(path) && Separate(l) && Separate(r)
    && Nodes(l) !! Nodes(r) && PathNodes(path) !! Nodes(l) && PathNodes(path) !! Nodes(r)
    && x !in Nodes(l) && x !in Nodes(r) && x !in PathNodes(path)
    && y !in Nodes(l) && y !in Nodes(r) && y !in PathNodes(path)
    && nil !in Nodes(l) && nil !in Nodes(r) && nil !in PathNodes(path)
  }

  lemma {:induction false} PlugIsNode(path: Path, t: Tree)
    requires path.Step?
    ensures Plug(path, t).Node?
    decreases path
  {
    if path.up.Step? { PlugIsNode(path.up, Make(path.d, t, path.item, path.other)); }
  }

  lemma RootIgnoresItem(path: Path, l: Tree, x: Item, x': Item, r: Tree, nil: RbNode)
    requires x.node == x'.node
    ensures Root(Plug(path, Node(l, x, r)), nil) == Root(Plug(path, Node(l, x', r)), nil)
  {
    RootPlug(path, Node(l, x, r), Node(l, x', r), nil);
  }

  lemma PreparedReplaceable(h: Store, nil: RbNode, path: Path, x: RbNode, l: Tree, y: RbNode, r: Tree)
    requires Prepared(h, nil, path, x, l, y, r)
    ensures Replaceable(h, nil, path, x)
    ensures l.Node? ==> l.item.node in h && l.item.node != nil && l.item.node != y && l.item.node != x
    ensures path.Step? ==>
      path.item.node in h && path.item.node != y && path.item.node != x && path.item.node != Root(l, nil)
  {
    if path.Step? { DirectionCorrect(h, nil, path, x, nil); }
  }

  lemma PreparedFrame(h: Store, h': Store, nil: RbNode, path: Path, x: RbNode, l: Tree, y: RbNode, r: Tree)
    requires Prepared(h, nil, path, x, l, y, r)
    requires nil in h' && h'[nil].color == Black && Agree(h, h', h.Keys - {nil})
    ensures Prepared(h', nil, path, x, l, y, r)
  {
    PathLinkedFrame(h, h', nil, path, x, nil);
    LinkedFrame(h, h', nil, l, x);
    LinkedFrame(h, h', nil, r, y);
  }

  /** The writes with which `y` takes over: it is transplanted, gets the left subtree and a colour. */
  lemma TakeOverRepresents(h: Store, h': Store, nil: RbNode, root: RbNode, root': RbNode, path: Path,
                           x: RbNode, l: Tree, y: Item, r: Tree)
    requires Prepared(h, nil, path, x, l, y.node, r) && y.key == h[y.node].key
    requires l.Node? && root == Root(Plug(path, Node(l, Item(x, 0, Red), r)), nil)
    requires h'.Keys == h.Keys
    requires h'[y.node] == Cell(Parent(path, nil), Links(Root(l, nil), Root(r, nil)), y.key, y.color)
    requires h'[l.item.node] == h[l.item.node].(parent := y.node)
    requires path.Step? ==> path.item.node in h' && h'[path.item.node] == h[path.item.node].WithChild(path.d, y.node)
    requires forall n :: n in h && n != y.node && n != l.item.node && (path.Step? ==> n != path.item.node) ==>
               h'[n] == h[n]
    requires root' == if path == Top then y.node else root
    ensures Represents(h', nil, root', Plug(path, Node(l, y, r)))
  {
    var t' := Node(l, y, r);
    assert l.item.node in Nodes(l);
    PathRedirect(h, h', nil, path, x, y.node, nil);
    LinkedReparent(h, h', nil, l, x, y.node);
    LinkedFrame(h, h', nil, r, y.node);
    PlugLinked(h', nil, path, t', nil);
    PlugSeparate(path, t');
    if path.Step? { RootPlug(path, Node(l, Item(x, 0, Red), r), t', nil); }
  }

  /** `y` is the right child of `x` and has no left child. */
  lemma PreparedShallow(h: Store, nil: RbNode, root: RbNode, path: Path, l: Tree, x: Item, y: Item, r: Tree)
    requires Represents(h, nil, root, Plug(path, Node(l, x, Node(Leaf, y, r))))
    ensures Prepared(h, nil, path, x.node, l, y.node, r)
  {
    var t := Node(l, x, Node(Leaf, y, r));
    PlugLinked(h, nil, path, t, nil);
    PlugSeparate(path, t);
  }

  /** `y` has left its place deep in the right subtree, and takes on what is left of it. */
  lemma PreparedDeep(h: Store, h': Store, nil: RbNode, root: RbNode, path: Path, l: Tree, x: Item, y: RbNode, r: Tree)
    requires Represents(h, nil, root, Plug(path, Node(l, x, r))) && r.Node?
    requires y in h && y != nil && y !in Nodes(Plug(path, Node(l, x, r)))
    requires r.item.node in h
    requires h' == h[y := h[y].WithChild(RIGHT, r.item.node)][r.item.node := h[r.item.node].(parent := y)]
    ensures Prepared(h', nil, path, x.node, l, y, r)
  {
    var t := Node(l, x, r);
    PlugLinked(h, nil, path, t, nil);
    PlugSeparate(path, t);
    PathLinkedFrame(h, h', nil, path, x.node, nil);
    LinkedFrame(h, h', nil, l, x.node);
    LinkedReparent(h, h', nil, r, x.node, y);
  }

  lemma LeafLeft(h: Store, nil: RbNode, y: Item, s: Tree, p: RbNode)
    ensures var t := Node(Leaf, y, s);
      && Nodes(t) == Nodes(s) + {y.node}
      && (Separate(t) ==> Separate(s) && y.node !in Nodes(s))
      && (Linked(h, nil, t, p) ==> Linked(h, nil, s, y.node))
  {
  }

  /** A node `y` without left child, in the hole of `c`, gives way to its right subtree. */
  lemma SuccessorLeaves(h: Store, nil: RbNode, root: RbNode, c: Path, y: Item, s: Tree)
    requires Represents(h, nil, root, Plug(c, Node(Leaf, y, s))) && c.Step?
    ensures Replaceable(h, nil, c, y.node) && c.item.node in h && Root(s, nil) in h
    ensures h[y.node].child.right == Root(s, nil) && y.node != c.item.node && y.node != Root(s, nil)
    ensures Root(s, nil) != c.item.node
    ensures Represents(Transplanted(h, nil, c, Root(s, nil)), nil, root, Plug(c, s))
    ensures y.node !in Nodes(Plug(c, s)) && Nodes(Plug(c, Node(Leaf, y, s))) == Nodes(Plug(c, s)) + {y.node}
  {
    hide Plug, PathLinked, PathSeparate, Linked, Separate, Nodes, PathNodes;
    var t := Node(Leaf, y, s);
    AroundHole(h, nil, root, c, t);
    PlugLinked(h, nil, c, t, nil);
    PlugSeparate(c, t);
    PlugSeparate(c, s);
    LeafLeft(h, nil, y, s, Parent(c, nil));
    LinkedDomain(h, nil, t, Parent(c, nil));
    OwnNodes(c, s);
    TransplantRepresents(h, nil, root, root, c, t, s, y.node);
  }
}
