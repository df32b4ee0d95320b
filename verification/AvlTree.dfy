// The intrusive balanced tree (component/shell/avltree.c): parent pointers that carry
// the balance factor, rotations, and the climb that rebalances after an insertion.
module AvlTree {
  import opened Sequences

  // avl_scale values.
  const BALANCED := 0
  const TILT_RIGHT := 1
  const TILT_LEFT := 2

  // A shell command with the tree node embedded in it. The packed word avl_parent is
  // the pair (parent, scale): its setters replace one half and keep the other.
  class Command {
    const id: nat
    const name: string
    var left: Command?
    var right: Command?
    var parent: Command?
    var scale: nat

    constructor (id: nat, name: string)
      ensures this.id == id && this.name == name
    {
      this.id, this.name := id, name;
      left, right, parent, scale := null, null, null, BALANCED;
    }
  }

  class Root {
    var node: Command?

    constructor ()
      ensures node == null
    {
      node := null;
    }
  }

  // ---- The tree the pointers stand for ----

  datatype Tree = Leaf | Node(l: Tree, n: Command, r: Tree)

  ghost function Nodes(t: Tree): set<Command> {
    if t.Leaf? then {} else Nodes(t.l) + {t.n} + Nodes(t.r)
  }

  function Top(t: Tree): Command? {
    if t.Leaf? then null else t.n
  }

  ghost function Inorder(t: Tree): seq<Command> {
    if t.Leaf? then [] else Inorder(t.l) + [t.n] + Inorder(t.r)
  }

  ghost function Height(t: Tree): nat {
    if t.Leaf? then 0 else 1 + Max(Height(t.l), Height(t.r))
  }

  function Max(a: nat, b: nat): nat {
    if a < b then b else a
  }

  // No node twice.
  ghost predicate Distinct(t: Tree) {
    t.Node? ==>
      && Distinct(t.l) && Distinct(t.r)
      && t.n !in Nodes(t.l) && t.n !in Nodes(t.r) && Nodes(t.l) !! Nodes(t.r)
  }

  // Child and parent pointers are exactly those of the tree hanging below p.
  ghost predicate Linked(t: Tree, p: Command?)
    reads Nodes(t)`left, Nodes(t)`right, Nodes(t)`parent
  {
    t.Node? ==>
      && t.n.parent == p && t.n.left == Top(t.l) && t.n.right == Top(t.r)
      && Linked(t.l, t.n) && Linked(t.r, t.n)
  }

  function ScaleOf(hl: nat, hr: nat): nat {
    if hl == hr then BALANCED else if hl < hr then TILT_RIGHT else TILT_LEFT
  }

  // Heights of siblings differ by one at most.
  predicate Near(hl: nat, hr: nat) {
    hl <= hr + 1 && hr <= hl + 1
  }

  // The stored balance factor is the real height difference, at most one, at every node.
  ghost predicate Avl(t: Tree)
    reads Nodes(t)`scale
  {
    t.Node? ==>
      && Near(Height(t.l), Height(t.r)) && t.n.scale == ScaleOf(Height(t.l), Height(t.r))
      && Avl(t.l) && Avl(t.r)
  }

  // ---- A tree with a hole in it ----

  datatype Ctx = Hole | InLeft(up: Ctx, n: Command, r: Tree) | InRight(up: Ctx, l: Tree, n: Command)

  ghost function Plug(c: Ctx, t: Tree): Tree {
    match c
    case Hole => t
    case InLeft(up, n, r) => Plug(up, Node(t, n, r))
    case InRight(up, l, n) => Plug(up, Node(l, n, t))
  }

  ghost function CtxNodes(c: Ctx): set<Command> {
    match c
    case Hole => {}
    case InLeft(up, n, r) => CtxNodes(up) + {n} + Nodes(r)
    case InRight(up, l, n) => CtxNodes(up) + {n} + Nodes(l)
  }

  // The node the hole hangs from.
  function Above(c: Ctx): Command? {
    if c.Hole? then null else c.n
  }

  ghost predicate CtxDistinct(c: Ctx) {
    match c
    case Hole => true
    case InLeft(up, n, r) =>
      CtxDistinct(up) && Distinct(r) && n !in Nodes(r) && n !in CtxNodes(up) && Nodes(r) !! CtxNodes(up)
    case InRight(up, l, n) =>
      CtxDistinct(up) && Distinct(l) && n !in Nodes(l) && n !in CtxNodes(up) && Nodes(l) !! CtxNodes(up)
  }

  // The pointers around the hole, which leads to t.
  ghost predicate CtxLinked(c: Ctx, t: Command?, root: Root)
    reads root, CtxNodes(c)`left, CtxNodes(c)`right, CtxNodes(c)`parent
  {
    match c
    case Hole => root.node == t
    case InLeft(up, n, r) =>
      n.left == t && n.right == Top(r) && n.parent == Above(up) && Linked(r, n) && CtxLinked(up, n, root)
    case InRight(up, l, n) =>
      n.right == t && n.left == Top(l) && n.parent == Above(up) && Linked(l, n) && CtxLinked(up, n, root)
  }

  // The balance around a hole filled by a subtree of height h.
  ghost predicate CtxAvl(c: Ctx, h: nat)
    reads CtxNodes(c)`scale
  {
    match c
    case Hole => true
    case InLeft(up, n, r) =>
      Near(h, Height(r)) && n.scale == ScaleOf(h, Height(r)) && Avl(r) && CtxAvl(up, 1 + Max(h, Height(r)))
    case InRight(up, l, n) =>
      Near(Height(l), h) && n.scale == ScaleOf(Height(l), h) && Avl(l) && CtxAvl(up, 1 + Max(Height(l), h))
  }

  ghost function Before(c: Ctx): seq<Command> {
    match c
    case Hole => []
    case InLeft(up, n, r) => Before(up)
    case InRight(up, l, n) => Before(up) + Inorder(l) + [n]
  }

  ghost function After(c: Ctx): seq<Command> {
    match c
    case Hole => []
    case InLeft(up, n, r) => [n] + Inorder(r) + After(up)
    case InRight(up, l, n) => After(up)
  }

  // ---- Plugging ----

  lemma {:induction false} PlugInorder(c: Ctx, t: Tree)
    ensures Inorder(Plug(c, t)) == Before(c) + Inorder(t) + After(c)
  {
    match c
    case Hole => assert [] + Inorder(t) + [] == Inorder(t);
    case InLeft(up, n, r) =>
      PlugInorder(up, Node(t, n, r));
      Regroup(Before(up), Inorder(t), [n] + Inorder(r), After(up));
      Associate(Inorder(t), [n], Inorder(r));
    case InRight(up, l, n) =>
      PlugInorder(up, Node(l, n, t));
      Regroup(Before(up), Inorder(l) + [n], Inorder(t), After(up));
      Associate(Before(up), Inorder(l), [n]);
  }

  lemma {:induction false} PlugDistinct(c: Ctx, t: Tree)
    ensures Distinct(Plug(c, t)) <==> CtxDistinct(c) && Distinct(t) && Nodes(t) !! CtxNodes(c)
  {
    match c
    case Hole =>
    case InLeft(up, n, r) => PlugDistinct(up, Node(t, n, r));
    case InRight(up, l, n) => PlugDistinct(up, Node(l, n, t));
  }

  lemma {:induction false} PlugLinked(c: Ctx, t: Tree, root: Root)
    ensures Linked(Plug(c, t), null) && root.node == Top(Plug(c, t))
            <==> CtxLinked(c, Top(t), root) && Linked(t, Above(c))
  {
    match c
    case Hole =>
    case InLeft(up, n, r) => PlugLinked(up, Node(t, n, r), root);
    case InRight(up, l, n) => PlugLinked(up, Node(l, n, t), root);
  }

  lemma {:induction false} PlugAvl(c: Ctx, t: Tree)
    ensures Avl(Plug(c, t)) <==> CtxAvl(c, Height(t)) && Avl(t)
  {
    hide Near, ScaleOf, Max, CtxNodes;
    match c
    case Hole =>
    case InLeft(up, n, r) => PlugAvl(up, Node(t, n, r));
    case InRight(up, l, n) => PlugAvl(up, Node(l, n, t));
  }

  // ---- Rotations ----

  // A subtree at a place of the tree, all of it apart from its surroundings.
  ghost predicate Placed(c: Ctx, t: Tree, root: Root)
    reads root, (Nodes(t) + CtxNodes(c))`left, (Nodes(t) + CtxNodes(c))`right, (Nodes(t) + CtxNodes(c))`parent
  {
    && CtxDistinct(c) && Distinct(t) && Nodes(t) !! CtxNodes(c)
    && CtxLinked(c, Top(t), root) && Linked(t, Above(c))
  }

  lemma TopInside(t: Tree)
    ensures t.Node? ==> Top(t) in Nodes(t)
    ensures t.Leaf? <==> Top(t) == null
  {
  }

  // The pointers next to the hole, one level of them.
  lemma CtxStep(c: Ctx, t: Command?, root: Root)
    ensures CtxLinked(c, t, root) <==>
      match c
      case Hole => root.node == t
      case InLeft(up, n, r) =>
        n.left == t && n.right == Top(r) && n.parent == Above(up) && Linked(r, n) && CtxLinked(up, n, root)
      case InRight(up, l, n) =>
        n.right == t && n.left == Top(l) && n.parent == Above(up) && Linked(l, n) && CtxLinked(up, n, root)
  {
  }

  lemma CtxParts(c: Ctx)
    requires CtxDistinct(c)
    ensures c.InLeft?
            ==> CtxNodes(c) == CtxNodes(c.up) + {c.n} + Nodes(c.r) && c.n !in Nodes(c.r) && c.n !in CtxNodes(c.up)
                          && Nodes(c.r) !! CtxNodes(c.up) && CtxDistinct(c.up) && Distinct(c.r)
                          && (c.r.Node? ==> Top(c.r) in Nodes(c.r))
    ensures c.InRight?
            ==> CtxNodes(c) == CtxNodes(c.up) + {c.n} + Nodes(c.l) && c.n !in Nodes(c.l) && c.n !in CtxNodes(c.up)
                           && Nodes(c.l) !! CtxNodes(c.up) && CtxDistinct(c.up) && Distinct(c.l)
                           && (c.l.Node? ==> Top(c.l) in Nodes(c.l))
  {
  }

  ghost function AllNodes(c: Ctx, t: Tree): set<Command> {
    Nodes(t) + CtxNodes(c)
  }

  lemma Apart(c: Ctx, a: Tree, l: Command, b: Tree, n: Command, r: Tree)
    requires Distinct(Node(Node(a, l, b), n, r)) || Distinct(Node(a, l, Node(b, n, r)))
    ensures Distinct(Node(Node(a, l, b), n, r)) && Distinct(Node(a, l, Node(b, n, r)))
    ensures Nodes(Node(Node(a, l, b), n, r)) == Nodes(Node(a, l, Node(b, n, r)))
            == Nodes(a) + {l} + Nodes(b) + {n} + Nodes(r)
    ensures Distinct(a) && Distinct(b) && Distinct(r) && l != n
    ensures l !in Nodes(a) && l !in Nodes(b) && l !in Nodes(r) && n !in Nodes(a) && n !in Nodes(b) && n !in Nodes(r)
    ensures Nodes(a) !! Nodes(b) && Nodes(a) !! Nodes(r) && Nodes(b) !! Nodes(r)
  {
    assert Nodes(Node(a, l, b)) == Nodes(a) + {l} + Nodes(b);
    assert Nodes(Node(b, n, r)) == Nodes(b) + {n} + Nodes(r);
  }

  lemma LinkedNode(l: Tree, n: Command, r: Tree, p: Command?)
    ensures Linked(Node(l, n, r), p) <==>
      n.parent == p && n.left == Top(l) && n.right == Top(r) && Linked(l, n) && Linked(r, n)
  {
  }

  lemma NodeParts(t: Tree)
    requires t.Node? && Distinct(t)
    ensures Nodes(t) == Nodes(t.l) + {t.n} + Nodes(t.r)
    ensures t.n !in Nodes(t.l) && t.n !in Nodes(t.r) && Nodes(t.l) !! Nodes(t.r) && Distinct(t.l) && Distinct(t.r)
  {
  }

  lemma LinkedLeaf(p: Command?)
    ensures Linked(Leaf, p)
  {
  }

  // The pointer that led to a node leads to another instead.
  method Reseat(node: Command, heir: Command, root: Root, ghost c: Ctx)
    requires CtxDistinct(c) && CtxLinked(c, node, root) && node !in CtxNodes(c) && heir.parent == Above(c)
    modifies root`node, CtxNodes(c)`left, CtxNodes(c)`right
    ensures CtxLinked(c, heir, root)
  {
    hide Linked, Nodes, Distinct, CtxLinked, CtxNodes, CtxDistinct;
    CtxParts(c);
    CtxStep(c, node, root);
    var parent := heir.parent;
    if parent == null {
      root.node := heir;
    } else if node == parent.right {
      parent.right := heir;
    } else {
      parent.left := heir;
    }
    if c.InLeft? {
      assert Linked(c.r, c.n) && CtxLinked(c.up, c.n, root);
    } else if c.InRight? {
      assert Linked(c.l, c.n) && CtxLinked(c.up, c.n, root);
    }
    CtxStep(c, heir, root);
  }

  method RotateRight(node: Command, root: Root, ghost c: Ctx, ghost a: Tree, ghost l: Command, ghost b: Tree,
                     ghost r: Tree)
    requires Placed(c, Node(Node(a, l, b), node, r), root)
    modifies root`node, AllNodes(c, Node(Node(a, l, b), node, r))`left, AllNodes(c, Node(Node(a, l, b), node, r))`right,
             AllNodes(c, Node(Node(a, l, b), node, r))`parent
    ensures Placed(c, Node(a, l, Node(b, node, r)), root)
  {
    hide Linked, Nodes, Distinct, CtxLinked, CtxNodes, CtxDistinct;
    Apart(c, a, l, b, node, r);
    TopInside(a); TopInside(b); TopInside(r);
    LinkedNode(Node(a, l, b), node, r, Above(c));
    LinkedNode(a, l, b, node);
    if b.Node? { NodeParts(b); LinkedNode(b.l, b.n, b.r, l); }
    var left := node.left;
    var parent := node.parent;
    node.left := left.right;
    if node.left != null {
      left.right.parent := node;
    }
    left.right := node;
    left.parent := parent;
    node.parent := left;
    NodesExist(a); NodesExist(b); NodesExist(r);
    Reseat(node, left, root, c);
    assert Linked(Node(a, l, Node(b, node, r)), Above(c)) by {
      assert Linked(a, l) && Linked(r, node);
      if b.Node? {
        assert Linked(b.l, b.n) && Linked(b.r, b.n);
        LinkedNode(b.l, b.n, b.r, node);
      } else {
        LinkedLeaf(node);
      }
      LinkedNode(b, node, r, l);
      LinkedNode(a, l, Node(b, node, r), Above(c));
    }
  }

  method RotateLeft(node: Command, root: Root, ghost c: Ctx, ghost a: Tree, ghost b: Tree, ghost rt: Command,
                    ghost r: Tree)
    requires Placed(c, Node(a, node, Node(b, rt, r)), root)
    modifies root`node, AllNodes(c, Node(a, node, Node(b, rt, r)))`left,
             AllNodes(c, Node(a, node, Node(b, rt, r)))`right,
             AllNodes(c, Node(a, node, Node(b, rt, r)))`parent
    ensures Placed(c, Node(Node(a, node, b), rt, r), root)
  {
    hide Linked, Nodes, Distinct, CtxLinked, CtxNodes, CtxDistinct;
    Apart(c, a, node, b, rt, r);
    TopInside(a); TopInside(b); TopInside(r);
    LinkedNode(a, node, Node(b, rt, r), Above(c));
    LinkedNode(b, rt, r, node);
    if b.Node? { NodeParts(b); LinkedNode(b.l, b.n, b.r, rt); }
    var right := node.right;
    var parent := node.parent;
    node.right := right.left;
    if node.right != null {
      right.left.parent := node;
    }
    right.left := node;
    right.parent := parent;
    node.parent := right;
    NodesExist(a); NodesExist(b); NodesExist(r);
    Reseat(node, right, root, c);
    assert Linked(Node(Node(a, node, b), rt, r), Above(c)) by {
      assert Linked(a, node) && Linked(r, rt);
      if b.Node? {
        assert Linked(b.l, b.n) && Linked(b.r, b.n);
        LinkedNode(b.l, b.n, b.r, node);
      } else {
        LinkedLeaf(node);
      }
      LinkedNode(a, node, b, rt);
      LinkedNode(Node(a, node, b), rt, r, Above(c));
    }
  }

  // Moving the place one level down or up.
  lemma PlacedLeft(c: Ctx, t: Tree, n: Command, r: Tree, root: Root)
    ensures Placed(c, Node(t, n, r), root) <==> Placed(InLeft(c, n, r), t, root)
    ensures AllNodes(c, Node(t, n, r)) == AllNodes(InLeft(c, n, r), t)
  {
  }

  lemma PlacedRight(c: Ctx, l: Tree, n: Command, t: Tree, root: Root)
    ensures Placed(c, Node(l, n, t), root) <==> Placed(InRight(c, l, n), t, root)
    ensures AllNodes(c, Node(l, n, t)) == AllNodes(InRight(c, l, n), t)
  {
  }

  // ---- Rebalancing a node whose left side is two higher ----

  lemma AvlNode(l: Tree, n: Command, r: Tree)
    ensures Avl(Node(l, n, r)) <==>
      Near(Height(l), Height(r)) && n.scale == ScaleOf(Height(l), Height(r)) && Avl(l) && Avl(r)
    ensures Height(Node(l, n, r)) == 1 + Max(Height(l), Height(r))
  {
  }

  lemma SingleOrder(a: Tree, l: Command, b: Tree, n: Command, r: Tree)
    ensures Inorder(Node(Node(a, l, b), n, r)) == Inorder(Node(a, l, Node(b, n, r)))
    ensures Nodes(Node(Node(a, l, b), n, r)) == Nodes(Node(a, l, Node(b, n, r)))
  {
    assert Inorder(Node(a, l, b)) == Inorder(a) + [l] + Inorder(b);
    assert Inorder(Node(b, n, r)) == Inorder(b) + [n] + Inorder(r);
    assert Nodes(Node(a, l, b)) == Nodes(a) + {l} + Nodes(b);
    assert Nodes(Node(b, n, r)) == Nodes(b) + {n} + Nodes(r);
  }

  // __avl_balance_left: the height the subtree had before the insertion comes back.
  method BalanceLeft(node: Command, root: Root, ghost c: Ctx, ghost s: Tree, ghost r: Tree)
    returns (retl: int, ghost t: Tree)
    requires Placed(c, Node(s, node, r), root) && Avl(s) && Avl(r) && Height(s) == Height(r) + 2
    requires s.n.scale != BALANCED
    modifies root`node, AllNodes(c, Node(s, node, r))`left, AllNodes(c, Node(s, node, r))`right,
             AllNodes(c, Node(s, node, r))`parent, Nodes(Node(s, node, r))`scale
    ensures retl == -1 && Placed(c, t, root) && Avl(t) && Height(t) == Height(s)
    ensures Inorder(t) == Inorder(Node(s, node, r)) && Nodes(t) == Nodes(Node(s, node, r))
  {
    hide Linked, Nodes, Distinct, CtxLinked, CtxNodes, CtxDistinct, Avl, Height, Placed, Inorder;
    LeafHeight(s);
    PlacedTop(c, s, node, r, root);
    ghost var a, l, b := s.l, s.n, s.r;
    NodesExist(a); NodesExist(b); NodesExist(r);
    AvlNode(a, l, b);
    var leftChild := node.left;
    if leftChild.scale == TILT_LEFT {
      ApartPlaced(c, a, l, b, node, r, root);
      RotateRight(node, root, c, a, l, b, r);
      node.scale := BALANCED;
      leftChild.scale := BALANCED;
      t := Node(a, l, Node(b, node, r));
      AvlNode(b, node, r);
      AvlNode(a, l, Node(b, node, r));
      SingleOrder(a, l, b, node, r);
      retl := -1;
    } else {
      t := DoubleLeft(node, root, c, a, l, b, r);
      retl := -1;
    }
  }

  lemma PlacedTop(c: Ctx, s: Tree, node: Command, r: Tree, root: Root)
    requires Placed(c, Node(s, node, r), root)
    ensures node.left == Top(s) && node.right == Top(r)
    ensures s.Node? ==> s.n.left == Top(s.l) && s.n.right == Top(s.r)
    ensures r.Node? ==> r.n.left == Top(r.l) && r.n.right == Top(r.r)
  {
    assert Linked(s, node) && Linked(r, node);
  }

  // The nodes of a tree at hand exist.
  lemma {:induction false} NodesExist(t: Tree)
    ensures forall x :: x in Nodes(t) ==> allocated(x)
  {
    if t.Node? {
      NodesExist(t.l);
      NodesExist(t.r);
    }
  }

  lemma {:induction false} CtxNodesExist(c: Ctx)
    ensures forall x :: x in CtxNodes(c) ==> allocated(x)
  {
    match c
    case Hole =>
    case InLeft(up, n, r) => CtxNodesExist(up); NodesExist(r);
    case InRight(up, l, n) => CtxNodesExist(up); NodesExist(l);
  }

  lemma ApartPlaced(c: Ctx, a: Tree, l: Command, b: Tree, n: Command, r: Tree, root: Root)
    requires Placed(c, Node(Node(a, l, b), n, r), root) || Placed(c, Node(a, l, Node(b, n, r)), root)
    ensures l != n && l !in Nodes(a) && l !in Nodes(b) && l !in Nodes(r) && n !in Nodes(a) && n !in Nodes(b)
    ensures n !in Nodes(r)
    ensures Nodes(Node(Node(a, l, b), n, r)) == Nodes(a) + {l} + Nodes(b) + {n} + Nodes(r)
    ensures Nodes(Node(a, l, Node(b, n, r))) == Nodes(a) + {l} + Nodes(b) + {n} + Nodes(r)
    ensures Nodes(a) !! Nodes(b) && Nodes(a) !! Nodes(r) && Nodes(b) !! Nodes(r)
  {
    Apart(c, a, l, b, n, r);
  }

  // The left child leans right: two rotations.
  method DoubleLeft(node: Command, root: Root, ghost c: Ctx, ghost a: Tree, ghost l: Command, ghost b: Tree,
                    ghost r: Tree) returns (ghost t: Tree)
    requires Placed(c, Node(Node(a, l, b), node, r), root) && Avl(Node(a, l, b)) && Avl(r)
    requires Height(Node(a, l, b)) == Height(r) + 2 && l.scale == TILT_RIGHT
    modifies root`node, AllNodes(c, Node(Node(a, l, b), node, r))`left, AllNodes(c, Node(Node(a, l, b), node, r))`right,
             AllNodes(c, Node(Node(a, l, b), node, r))`parent, Nodes(Node(Node(a, l, b), node, r))`scale
    ensures Placed(c, t, root) && Avl(t) && Height(t) == Height(Node(a, l, b))
    ensures Inorder(t) == Inorder(Node(Node(a, l, b), node, r)) && Nodes(t) == Nodes(Node(Node(a, l, b), node, r))
  {
    hide Linked, Nodes, Distinct, CtxLinked, CtxNodes, CtxDistinct, Avl, Height, Placed, Inorder, Near, ScaleOf, Max;
    PlacedTop(c, Node(a, l, b), node, r, root);
    DoubleHeights(a, l, b, r);
    AvlParts(b);
    ghost var b1, m, b2 := b.l, b.n, b.r;
    NodesExist(a); NodesExist(b1); NodesExist(b2); NodesExist(r); NodesExist(Node(Node(a, l, b), node, r));
    CtxNodesExist(c);
    ApartPlaced(c, a, l, b, node, r, root);
    PlacedLeft(c, Node(a, l, b), node, r, root);
    ApartPlaced(InLeft(c, node, r), a, l, b1, m, b2, root);
    DoubleNodes(a, l, b, node, r);
    var leftChild := node.left;
    var leftRight := leftChild.right;
    RotateLeft(node.left, root, InLeft(c, node, r), a, b1, m, b2);
    PlacedLeft(c, Node(Node(a, l, b1), m, b2), node, r, root);
    RotateRight(node, root, c, Node(a, l, b1), m, b2, r);
    assert Avl(a) && Avl(b1) && Avl(b2) && Avl(r);
    Rescale(leftChild, leftRight, node, a, b1, b2, r);
    t := Node(Node(a, l, b1), m, Node(b2, node, r));
    SingleOrder(Node(a, l, b1), m, b2, node, r);
    DoubleOrder(a, l, b, node, r);
  }

  lemma DoubleHeights(a: Tree, l: Command, b: Tree, r: Tree)
    requires Avl(Node(a, l, b)) && Height(Node(a, l, b)) == Height(r) + 2 && l.scale == TILT_RIGHT
    ensures b.Node? && Avl(a) && Avl(b) && Height(a) == Height(r) && Height(b) == Height(r) + 1
  {
    hide Avl, Nodes, Near, ScaleOf, Max, Height;
    AvlNode(a, l, b);
    LeafHeight(b);
    TiltedRight(a, l, b, r);
  }

  lemma AvlParts(t: Tree)
    requires t.Node? && Avl(t)
    ensures Near(Height(t.l), Height(t.r)) && t.n.scale == ScaleOf(Height(t.l), Height(t.r)) && Avl(t.l) && Avl(t.r)
    ensures Height(t) == 1 + Max(Height(t.l), Height(t.r))
  {
  }

  lemma TiltedRight(a: Tree, l: Command, b: Tree, r: Tree)
    requires Near(Height(a), Height(b)) && ScaleOf(Height(a), Height(b)) == TILT_RIGHT
    requires Height(Node(a, l, b)) == Height(r) + 2
    ensures Height(a) == Height(r) && Height(b) == Height(r) + 1
  {
    assert Height(Node(a, l, b)) == 1 + Max(Height(a), Height(b));
  }

  // The balance factors after a double rotation, from the one the raised node had.
  method Rescale(low: Command, mid: Command, high: Command, ghost a: Tree, ghost b1: Tree, ghost b2: Tree,
                 ghost r: Tree)
    requires Avl(a) && Avl(b1) && Avl(b2) && Avl(r) && Height(a) == Height(r)
    requires Max(Height(b1), Height(b2)) == Height(r)
    requires Near(Height(b1), Height(b2)) && mid.scale == ScaleOf(Height(b1), Height(b2))
    requires low != mid && mid != high && low != high
    requires forall x :: x == low || x == mid || x == high
               ==> x !in Nodes(a) && x !in Nodes(b1) && x !in Nodes(b2) && x !in Nodes(r)
    modifies low`scale, mid`scale, high`scale
    ensures Avl(Node(Node(a, low, b1), mid, Node(b2, high, r)))
    ensures Height(Node(Node(a, low, b1), mid, Node(b2, high, r))) == Height(r) + 2
  {
    hide Nodes, Avl, Height;
    if mid.scale == BALANCED {
      high.scale := BALANCED;
      low.scale := BALANCED;
    } else if mid.scale == TILT_RIGHT {
      high.scale := BALANCED;
      low.scale := TILT_LEFT;
    } else {
      low.scale := BALANCED;
      high.scale := TILT_RIGHT;
    }
    mid.scale := BALANCED;
    AvlNode(a, low, b1);
    AvlNode(b2, high, r);
    AvlNode(Node(a, low, b1), mid, Node(b2, high, r));
  }

  lemma LeafHeight(t: Tree)
    ensures t.Leaf? <==> Height(t) == 0
  {
  }

  lemma DoubleNodes(a: Tree, l: Command, b: Tree, n: Command, r: Tree)
    requires b.Node?
    ensures Nodes(Node(Node(Node(a, l, b.l), b.n, b.r), n, r)) == Nodes(Node(Node(a, l, b), n, r))
    ensures Nodes(Node(a, l, b.l)) == Nodes(a) + {l} + Nodes(b.l)
    ensures Nodes(b) == Nodes(b.l) + {b.n} + Nodes(b.r)
  {
    SingleOrder(a, l, b.l, b.n, b.r);
  }

  lemma DoubleOrder(a: Tree, l: Command, b: Tree, n: Command, r: Tree)
    requires b.Node?
    ensures Inorder(Node(Node(Node(a, l, b.l), b.n, b.r), n, r)) == Inorder(Node(Node(a, l, b), n, r))
  {
    SingleOrder(a, l, b.l, b.n, b.r);
    assert Node(b.l, b.n, b.r) == b;
  }

  // ---- Rebalancing a node whose right side is two higher ----

  // __avl_balance_right.
  method BalanceRight(node: Command, root: Root, ghost c: Ctx, ghost l: Tree, ghost s: Tree)
    returns (ret: int, ghost t: Tree)
    requires Placed(c, Node(l, node, s), root) && Avl(l) && Avl(s) && Height(s) == Height(l) + 2
    requires s.n.scale != BALANCED
    modifies root`node, AllNodes(c, Node(l, node, s))`left, AllNodes(c, Node(l, node, s))`right,
             AllNodes(c, Node(l, node, s))`parent, Nodes(Node(l, node, s))`scale
    ensures ret == -1 && Placed(c, t, root) && Avl(t) && Height(t) == Height(s)
    ensures Inorder(t) == Inorder(Node(l, node, s)) && Nodes(t) == Nodes(Node(l, node, s))
  {
    hide Linked, Nodes, Distinct, CtxLinked, CtxNodes, CtxDistinct, Avl, Height, Placed, Inorder;
    LeafHeight(s);
    PlacedTop(c, l, node, s, root);
    ghost var b, rt, a := s.l, s.n, s.r;
    NodesExist(a); NodesExist(b); NodesExist(l);
    AvlNode(b, rt, a);
    var rightChild := node.right;
    if rightChild.scale == TILT_RIGHT {
      ApartPlaced(c, l, node, b, rt, a, root);
      RotateLeft(node, root, c, l, b, rt, a);
      node.scale := BALANCED;
      rightChild.scale := BALANCED;
      t := Node(Node(l, node, b), rt, a);
      AvlNode(l, node, b);
      AvlNode(Node(l, node, b), rt, a);
      SingleOrder(l, node, b, rt, a);
      ret := -1;
    } else {
      t := DoubleRight(node, root, c, l, b, rt, a);
      ret := -1;
    }
  }

  // The right child leans left: two rotations.
  method DoubleRight(node: Command, root: Root, ghost c: Ctx, ghost l: Tree, ghost b: Tree, ghost rt: Command,
                     ghost a: Tree) returns (ghost t: Tree)
    requires Placed(c, Node(l, node, Node(b, rt, a)), root) && Avl(Node(b, rt, a)) && Avl(l)
    requires Height(Node(b, rt, a)) == Height(l) + 2 && rt.scale == TILT_LEFT
    modifies root`node, AllNodes(c, Node(l, node, Node(b, rt, a)))`left,
             AllNodes(c, Node(l, node, Node(b, rt, a)))`right,
             AllNodes(c, Node(l, node, Node(b, rt, a)))`parent, Nodes(Node(l, node, Node(b, rt, a)))`scale
    ensures Placed(c, t, root) && Avl(t) && Height(t) == Height(Node(b, rt, a))
    ensures Inorder(t) == Inorder(Node(l, node, Node(b, rt, a))) && Nodes(t) == Nodes(Node(l, node, Node(b, rt, a)))
  {
    hide Linked, Nodes, Distinct, CtxLinked, CtxNodes, CtxDistinct, Avl, Height, Placed, Inorder, Near, ScaleOf, Max;
    PlacedTop(c, l, node, Node(b, rt, a), root);
    MirrorHeights(l, b, rt, a);
    AvlParts(b);
    ghost var b1, m, b2 := b.l, b.n, b.r;
    NodesExist(a); NodesExist(b1); NodesExist(b2); NodesExist(l); NodesExist(Node(l, node, Node(b, rt, a)));
    CtxNodesExist(c);
    ApartPlaced(c, l, node, b, rt, a, root);
    PlacedRight(c, l, node, Node(b, rt, a), root);
    ApartPlaced(InRight(c, l, node), b1, m, b2, rt, a, root);
    MirrorNodes(l, node, b, rt, a);
    var rightChild := node.right;
    var rightLeft := rightChild.left;
    RotateRight(node.right, root, InRight(c, l, node), b1, m, b2, a);
    PlacedRight(c, l, node, Node(b1, m, Node(b2, rt, a)), root);
    RotateLeft(node, root, c, l, b1, m, Node(b2, rt, a));
    assert Avl(a) && Avl(b1) && Avl(b2) && Avl(l);
    Rescale(node, rightLeft, rightChild, l, b1, b2, a);
    t := Node(Node(l, node, b1), m, Node(b2, rt, a));
    SingleOrder(l, node, b1, m, Node(b2, rt, a));
    MirrorOrder(l, node, b, rt, a);
  }

  lemma MirrorHeights(l: Tree, b: Tree, rt: Command, a: Tree)
    requires Avl(Node(b, rt, a)) && Height(Node(b, rt, a)) == Height(l) + 2 && rt.scale == TILT_LEFT
    ensures b.Node? && Avl(a) && Avl(b) && Height(a) == Height(l) && Height(b) == Height(l) + 1
  {
    hide Avl, Nodes, Near, ScaleOf, Max, Height;
    AvlNode(b, rt, a);
    LeafHeight(b);
    TiltedLeft(l, b, rt, a);
  }

  lemma TiltedLeft(l: Tree, b: Tree, rt: Command, a: Tree)
    requires Near(Height(b), Height(a)) && ScaleOf(Height(b), Height(a)) == TILT_LEFT
    requires Height(Node(b, rt, a)) == Height(l) + 2
    ensures Height(a) == Height(l) && Height(b) == Height(l) + 1
  {
    assert Height(Node(b, rt, a)) == 1 + Max(Height(b), Height(a));
  }

  lemma MirrorNodes(l: Tree, n: Command, b: Tree, rt: Command, a: Tree)
    requires b.Node?
    ensures Nodes(Node(l, n, Node(b.l, b.n, Node(b.r, rt, a)))) == Nodes(Node(l, n, Node(b, rt, a)))
    ensures Nodes(Node(b.r, rt, a)) == Nodes(b.r) + {rt} + Nodes(a)
    ensures Nodes(b) == Nodes(b.l) + {b.n} + Nodes(b.r)
  {
    SingleOrder(b.l, b.n, b.r, rt, a);
  }

  lemma MirrorOrder(l: Tree, n: Command, b: Tree, rt: Command, a: Tree)
    requires b.Node?
    ensures Inorder(Node(l, n, Node(b.l, b.n, Node(b.r, rt, a)))) == Inorder(Node(l, n, Node(b, rt, a)))
  {
    SingleOrder(b.l, b.n, b.r, rt, a);
    assert Node(b.l, b.n, b.r) == b;
  }
}
