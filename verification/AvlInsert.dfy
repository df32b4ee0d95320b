// Insertion into the balanced tree (component/shell/avltree.c, avl_insert) and the
// registration of a command by ID (component/shell/shell_src.c, shell_insert_cmd).
module AvlInsert {
  import opened AvlTree
  import opened Sequences

  // ---- One step of the climb ----

  // The subtree on one side of a node grew from height h by one, ending in `s`; the
  // new subtree is either the new leaf or one that leans.
  ghost predicate Grown(s: Tree, h: nat)
    reads Nodes(s)`scale
  {
    Avl(s) && Height(s) == h + 1 && (h > 0 ==> s.n.scale != BALANCED)
  }

  // __left_hand_insert_track_back: 0 exactly when the subtree at this place grew.
  method TrackLeft(node: Command, root: Root, ghost c: Ctx, ghost s: Tree, ghost h: nat, ghost r: Tree)
    returns (ret: int, ghost t: Tree)
    requires Placed(c, Node(s, node, r), root) && Grown(s, h) && Avl(r)
    requires Near(h, Height(r)) && node.scale == ScaleOf(h, Height(r))
    modifies root`node, AllNodes(c, Node(s, node, r))`left, AllNodes(c, Node(s, node, r))`right,
             AllNodes(c, Node(s, node, r))`parent, Nodes(Node(s, node, r))`scale
    ensures Placed(c, t, root) && Inorder(t) == Inorder(Node(s, node, r)) && Nodes(t) == Nodes(Node(s, node, r))
    ensures ret == 0 ==> Grown(t, 1 + Max(h, Height(r)))
    ensures ret != 0 ==> ret == -1 && Avl(t) && Height(t) == 1 + Max(h, Height(r))
  {
    hide Linked, Nodes, Distinct, CtxLinked, CtxNodes, CtxDistinct, Avl, Height, Placed, Inorder;
    ghost var whole := Node(s, node, r);
    OwnNode(c, s, node, r, root);
    NodesExist(s); NodesExist(r);
    if node.scale == BALANCED {
      node.scale := TILT_LEFT;
      AvlNode(s, node, r);
      t := whole;
      return 0, t;
    } else if node.scale == TILT_RIGHT {
      node.scale := BALANCED;
      AvlNode(s, node, r);
      t := whole;
      return -1, t;
    } else {
      LeafHeight(s);
      ret, t := BalanceLeft(node, root, c, s, r);
    }
  }

  // __right_hand_insert_track_back.
  method TrackRight(node: Command, root: Root, ghost c: Ctx, ghost l: Tree, ghost s: Tree, ghost h: nat)
    returns (ret: int, ghost t: Tree)
    requires Placed(c, Node(l, node, s), root) && Grown(s, h) && Avl(l)
    requires Near(Height(l), h) && node.scale == ScaleOf(Height(l), h)
    modifies root`node, AllNodes(c, Node(l, node, s))`left, AllNodes(c, Node(l, node, s))`right,
             AllNodes(c, Node(l, node, s))`parent, Nodes(Node(l, node, s))`scale
    ensures Placed(c, t, root) && Inorder(t) == Inorder(Node(l, node, s)) && Nodes(t) == Nodes(Node(l, node, s))
    ensures ret == 0 ==> Grown(t, 1 + Max(Height(l), h))
    ensures ret != 0 ==> ret == -1 && Avl(t) && Height(t) == 1 + Max(Height(l), h)
  {
    hide Linked, Nodes, Distinct, CtxLinked, CtxNodes, CtxDistinct, Avl, Height, Placed, Inorder;
    ghost var whole := Node(l, node, s);
    OwnNode(c, l, node, s, root);
    NodesExist(s); NodesExist(l);
    if node.scale == BALANCED {
      node.scale := TILT_RIGHT;
      AvlNode(l, node, s);
      t := whole;
      return 0, t;
    } else if node.scale == TILT_LEFT {
      node.scale := BALANCED;
      AvlNode(l, node, s);
      t := whole;
      return -1, t;
    } else {
      LeafHeight(s);
      ret, t := BalanceRight(node, root, c, l, s);
    }
  }

  lemma OwnNode(c: Ctx, l: Tree, n: Command, r: Tree, root: Root)
    requires Placed(c, Node(l, n, r), root)
    ensures n in Nodes(Node(l, n, r)) && n !in Nodes(l) && n !in Nodes(r) && n !in CtxNodes(c) && Nodes(l) !! Nodes(r)
    ensures Nodes(Node(l, n, r)) == Nodes(l) + {n} + Nodes(r) && Nodes(l) !! CtxNodes(c) && Nodes(r) !! CtxNodes(c)
  {
  }

  // ---- avl_insert ----

  // avl_link: the pointer the new node is stored through.
  datatype Link = AtRoot | AtLeft | AtRight

  ghost function LinkOf(c: Ctx): Link {
    match c
    case Hole => AtRoot
    case InLeft(_, _, _) => AtLeft
    case InRight(_, _, _) => AtRight
  }

  // The whole tree as the heap holds it.
  ghost predicate Whole(t: Tree, root: Root)
    reads root, Nodes(t)`left, Nodes(t)`right, Nodes(t)`parent
  {
    Distinct(t) && root.node == Top(t) && Linked(t, null)
  }

  lemma WholePlaced(c: Ctx, t: Tree, root: Root)
    ensures Placed(c, t, root) <==> Whole(Plug(c, t), root)
  {
    hide Linked, Nodes, Distinct, CtxLinked, CtxNodes, CtxDistinct, Plug;
    PlugDistinct(c, t);
    PlugLinked(c, t, root);
  }

  // Stores the new leaf through the link.
  method Hang(root: Root, n: Command, parent: Command?, link: Link, ghost c: Ctx)
    requires Placed(c, Leaf, root) && n !in CtxNodes(c)
    requires parent == Above(c) && link == LinkOf(c)
    modifies root`node, n`left, n`right, n`parent, n`scale, CtxNodes(c)`left, CtxNodes(c)`right
    ensures Placed(c, Node(Leaf, n, Leaf), root) && Grown(Node(Leaf, n, Leaf), 0)
  {
    hide Linked, Nodes, Distinct, CtxLinked, CtxNodes, CtxDistinct;
    CtxParts(c);
    CtxStep(c, null, root);
    n.parent, n.scale := parent, BALANCED;
    n.left, n.right := null, null;
    match link {
      case AtRoot => root.node := n;
      case AtLeft => parent.left := n;
      case AtRight => parent.right := n;
    }
    if c.InLeft? {
      assert Linked(c.r, c.n);
      assert CtxLinked(c.up, c.n, root);
    } else if c.InRight? {
      assert Linked(c.l, c.n);
      assert CtxLinked(c.up, c.n, root);
    }
    CtxStep(c, n, root);
    LeafAlone(n, parent);
  }

  lemma LeafAlone(n: Command, p: Command?)
    ensures Nodes(Node(Leaf, n, Leaf)) == {n} && Distinct(Node(Leaf, n, Leaf)) && Height(Node(Leaf, n, Leaf)) == 1
    ensures Inorder(Node(Leaf, n, Leaf)) == [n]
    ensures Linked(Node(Leaf, n, Leaf), p) <==> n.parent == p && n.left == null && n.right == null
    ensures Avl(Node(Leaf, n, Leaf)) <==> n.scale == BALANCED
  {
  }

  // The commands in ID order, read around and below a place.
  ghost function Listing(c: Ctx, t: Tree): seq<Command> {
    Before(c) + Inorder(t) + After(c)
  }

  lemma ListingUp(c: Ctx, t: Tree)
    ensures c.InLeft? ==> Listing(c, t) == Listing(c.up, Node(t, c.n, c.r))
    ensures c.InRight? ==> Listing(c, t) == Listing(c.up, Node(c.l, c.n, t))
  {
    match c
    case Hole =>
    case InLeft(up, n, r) =>
      Regroup(Before(up), Inorder(t), [n] + Inorder(r), After(up));
      Associate(Inorder(t), [n], Inorder(r));
    case InRight(up, l, n) =>
      Regroup(Before(up), Inorder(l) + [n], Inorder(t), After(up));
      Associate(Before(up), Inorder(l), [n]);
  }

  // The side of its parent a subtree hangs on, as the climb records it.
  ghost predicate OnPath(c: Ctx, path: nat) {
    (c.InLeft? ==> path == TILT_LEFT) && (c.InRight? ==> path == TILT_RIGHT)
  }

  // What one look at a parent tells of the place.
  lemma PathFound(c: Ctx, t: Tree, root: Root)
    requires Placed(c, t, root) && t.Node? && c != Hole
    ensures c.n.parent == Above(c.up)
    ensures c.up != Hole ==> (c.up.n.right == c.n <==> c.up.InRight?)
    ensures t.n != c.n && (c.n.left == t.n <==> c.InLeft?) && (c.n.right == t.n <==> c.InRight?)
  {
    TopInside(if c.InLeft? then c.r else c.l);
    CtxParts(c);
    CtxParts(c.up);
    CtxStep(c, t.n, root);
    CtxStep(c.up, c.n, root);
  }

  // One level up: the surroundings of a subtree of height h, and those of its parent's.
  lemma CtxAvlUp(c: Ctx, h: nat)
    requires CtxAvl(c, h)
    ensures c.InLeft?
            ==> Near(h, Height(c.r)) && c.n.scale == ScaleOf(h, Height(c.r)) && Avl(c.r)
                && CtxAvl(c.up, 1 + Max(h, Height(c.r)))
    ensures c.InRight?
            ==> Near(Height(c.l), h) && c.n.scale == ScaleOf(Height(c.l), h) && Avl(c.l)
                && CtxAvl(c.up, 1 + Max(Height(c.l), h))
  {
  }

  // A subtree that grew by one in surroundings balanced for its old height, or one
  // that did not grow.
  ghost predicate Level(taller: int, c: Ctx, t: Tree, h: nat)
    reads CtxNodes(c)`scale, Nodes(t)`scale
  {
    && 0 <= taller <= 1
    && (taller == 1 ==> Grown(t, h) && CtxAvl(c, h))
    && (taller == 0 ==> Avl(t) && CtxAvl(c, Height(t)))
  }

  // One turn of the loop of avl_insert, the parent being on the recorded side.
  method Step(parent: Command, root: Root, path: nat, ghost c: Ctx, ghost s: Tree, ghost h: nat)
    returns (ret: int, ghost t: Tree, ghost g: nat)
    requires c != Hole && parent == c.n && OnPath(c, path)
    requires Placed(c, s, root) && Level(1, c, s, h)
    modifies root`node, AllNodes(c, s)`left, AllNodes(c, s)`right, AllNodes(c, s)`parent, AllNodes(c, s)`scale
    ensures Placed(c.up, t, root) && Level(1 + ret, c.up, t, g)
    ensures Listing(c.up, t) == Listing(c, s) && AllNodes(c.up, t) == AllNodes(c, s)
  {
    hide Linked, Nodes, Distinct, CtxLinked, CtxNodes, CtxDistinct, Avl, Height, Placed, Inorder, CtxAvl, Grown,
         Before, After;
    CtxAvlUp(c, h);
    ListingUp(c, s);
    CtxNodesExist(c.up);
    if path == TILT_RIGHT {
      PlacedRight(c.up, c.l, c.n, s, root);
      OwnNode(c.up, c.l, c.n, s, root);
      g := 1 + Max(Height(c.l), h);
      ret, t := TrackRight(parent, root, c.up, c.l, s, h);
    } else {
      PlacedLeft(c.up, s, c.n, c.r, root);
      OwnNode(c.up, s, c.n, c.r, root);
      g := 1 + Max(h, Height(c.r));
      ret, t := TrackLeft(parent, root, c.up, s, h, c.r);
    }
  }

  // The loop of avl_insert: climbs while the subtree below has grown.
  method Climb(parent0: Command?, root: Root, path0: nat, ghost c: Ctx, ghost s: Tree, ghost h0: nat)
    returns (ghost t: Tree)
    requires parent0 == Above(c) && OnPath(c, path0)
    requires Placed(c, s, root) && Level(1, c, s, h0)
    modifies root`node, AllNodes(c, s)`left, AllNodes(c, s)`right, AllNodes(c, s)`parent, AllNodes(c, s)`scale
    ensures Whole(t, root) && Avl(t) && Inorder(t) == Listing(c, s)
  {
    hide Linked, Nodes, Distinct, CtxLinked, CtxNodes, CtxDistinct, Avl, Height, Placed, Inorder, CtxAvl, Grown,
         Before, After, Whole, AllNodes;
    var taller, parent, path: nat := 1, parent0, path0;
    var gparent: Command? := null;
    var gpath: nat := 0;
    ghost var d, h := c, h0;
    t := s;
    while taller != 0 && parent != null
      invariant parent == Above(d) && OnPath(d, path)
      invariant Placed(d, t, root) && Level(taller, d, t, h)
      invariant Listing(d, t) == Listing(c, s) && AllNodes(d, t) == AllNodes(c, s)
      decreases d
    {
      RisenNode(d, t, h);
      PathFound(d, t, root);
      gparent := parent.parent;
      if gparent != null {
        gpath := if parent == gparent.right then TILT_RIGHT else TILT_LEFT;
      }
      var ret;
      ret, t, h := Step(parent, root, path, d, t, h);
      d := d.up;
      taller := taller + ret;
      path := gpath;
      parent := gparent;
    }
    WholePlaced(d, t, root);
    PlugAvl(d, t);
    PlugInorder(d, t);
    Levelled(taller, d, t, h);
    t := Plug(d, t);
  }

  lemma RisenNode(c: Ctx, t: Tree, h: nat)
    requires Level(1, c, t, h)
    ensures t.Node?
  {
    LeafHeight(t);
  }

  lemma Levelled(taller: int, c: Ctx, t: Tree, h: nat)
    requires Level(taller, c, t, h) && (taller == 0 || c == Hole)
    ensures Avl(t) && CtxAvl(c, Height(t))
  {
  }

  // avl_insert: hangs the node where the link points and rebalances the way up. The
  // tree stays linked and balanced and gains the node at that place of the order.
  method Insert(root: Root, n: Command, parent: Command?, link: Link, ghost c: Ctx) returns (ghost t: Tree)
    requires Placed(c, Leaf, root) && CtxAvl(c, 0) && n !in CtxNodes(c)
    requires parent == Above(c) && link == LinkOf(c)
    modifies root`node, n`left, n`right, n`parent, n`scale,
             CtxNodes(c)`left, CtxNodes(c)`right, CtxNodes(c)`parent, CtxNodes(c)`scale
    ensures Whole(t, root) && Avl(t)
    ensures Inorder(t) == Before(c) + [n] + After(c)
  {
    hide Linked, Nodes, Distinct, CtxLinked, CtxNodes, CtxDistinct, Avl, Height, Placed, Inorder, CtxAvl, Before,
         After, Whole, Plug;
    CtxNodesExist(c);
    ghost var leaf := Node(Leaf, n, Leaf);
    Hang(root, n, parent, link, c);
    LeafAlone(n, parent);
    if root.node == n {
      RootIsNew(c, leaf, root);
      Levelled(1, c, leaf, 0);
      WholePlaced(c, leaf, root);
      PlugAvl(c, leaf);
      PlugInorder(c, leaf);
      t := Plug(c, leaf);
      return;
    }
    AboveRoot(c, leaf, root);
    if parent.scale != BALANCED {
      CtxParts(c);
      EvensOut(c);
      parent.scale := BALANCED;
      Evened(c);
      WholePlaced(c, leaf, root);
      PlugAvl(c, leaf);
      PlugInorder(c, leaf);
      t := Plug(c, leaf);
      return;
    }
    var path: nat := if n == parent.left then TILT_LEFT else TILT_RIGHT;
    PathFound(c, leaf, root);
    t := Climb(parent, root, path, c, leaf, 0);
  }

  function Sibling(c: Ctx): Tree
    requires c != Hole
  {
    if c.InLeft? then c.r else c.l
  }

  // A leaning parent of an empty place has one node on its other side.
  lemma EvensOut(c: Ctx)
    requires c != Hole && CtxAvl(c, 0) && c.n.scale != BALANCED
    ensures Avl(Sibling(c)) && Height(Sibling(c)) == 1 && CtxAvl(c.up, 2)
  {
  }

  lemma Evened(c: Ctx)
    requires c != Hole && Avl(Sibling(c)) && Height(Sibling(c)) == 1 && CtxAvl(c.up, 2) && c.n.scale == BALANCED
    ensures CtxAvl(c, 1)
  {
  }

  // The root pointer leads to the new node only when the tree was empty.
  lemma RootIsNew(c: Ctx, t: Tree, root: Root)
    requires Placed(c, t, root) && t.Node? && root.node == t.n
    ensures c == Hole
  {
    if c != Hole { RootAbove(c, t.n, root); }
  }

  lemma {:induction false} RootAbove(c: Ctx, t: Command?, root: Root)
    requires c != Hole && CtxLinked(c, t, root)
    ensures root.node in CtxNodes(c)
  {
    if c.up != Hole { RootAbove(c.up, c.n, root); }
  }

  lemma AboveRoot(c: Ctx, t: Tree, root: Root)
    requires Placed(c, t, root) && t.Node? && root.node != t.n
    ensures c != Hole && Above(c) != null && c.n in CtxNodes(c) && c.n != t.n && CtxDistinct(c)
  {
  }

  // ---- shell_insert_cmd ----

  ghost predicate Ascending(s: seq<Command>) {
    forall i, j :: 0 <= i < j < |s| ==> s[i].id < s[j].id
  }

  // The registered commands: a linked, balanced tree in strictly ascending ID order.
  ghost predicate Index(t: Tree, root: Root)
    reads root, Nodes(t)`left, Nodes(t)`right, Nodes(t)`parent, Nodes(t)`scale
  {
    Whole(t, root) && Avl(t) && Ascending(Inorder(t))
  }

  // Every ID left of the place is below lo, every one right of it above hi.
  ghost predicate Between(c: Ctx, lo: nat, hi: nat) {
    && (forall i :: 0 <= i < |Before(c)| ==> Before(c)[i].id < lo)
    && (forall i :: 0 <= i < |After(c)| ==> hi < After(c)[i].id)
  }

  lemma FocusTop(c: Ctx, s: Tree, root: Root)
    requires Placed(c, s, root) && Top(s) != null
    ensures s.Node? && s.n == Top(s) && s.n.left == Top(s.l) && s.n.right == Top(s.r) && s.n in Nodes(s)
    ensures s.n.parent == Above(c)
  {
  }

  lemma ListingAt(c: Ctx, s: Tree)
    requires s.Node?
    ensures var k := |Before(c)| + |Inorder(s.l)|; k < |Listing(c, s)| && Listing(c, s)[k] == s.n
    ensures Listing(c, s) == (Before(c) + Inorder(s.l)) + [s.n] + (Inorder(s.r) + After(c))
  {
    Associate(Before(c), Inorder(s.l), [s.n]);
    Regroup(Before(c), Inorder(s.l) + [s.n], Inorder(s.r), After(c));
  }

  // Moving the place down one side.
  lemma DescendLeft(c: Ctx, s: Tree, root: Root)
    requires Placed(c, s, root) && s.Node?
    ensures Placed(InLeft(c, s.n, s.r), s.l, root)
    ensures AllNodes(InLeft(c, s.n, s.r), s.l) == AllNodes(c, s) && Listing(InLeft(c, s.n, s.r), s.l) == Listing(c, s)
    ensures Before(InLeft(c, s.n, s.r)) == Before(c) && After(InLeft(c, s.n, s.r)) == [s.n] + Inorder(s.r) + After(c)
  {
    hide Placed, Inorder, Listing, Nodes;
    assert Node(s.l, s.n, s.r) == s;
    PlacedLeft(c, s.l, s.n, s.r, root);
    ListingUp(InLeft(c, s.n, s.r), s.l);
  }

  lemma DescendRight(c: Ctx, s: Tree, root: Root)
    requires Placed(c, s, root) && s.Node?
    ensures Placed(InRight(c, s.l, s.n), s.r, root)
    ensures AllNodes(InRight(c, s.l, s.n), s.r) == AllNodes(c, s) && Listing(InRight(c, s.l, s.n), s.r) == Listing(c, s)
    ensures Before(InRight(c, s.l, s.n)) == Before(c) + Inorder(s.l) + [s.n] && After(InRight(c, s.l, s.n)) == After(c)
  {
    hide Placed, Inorder, Listing, Nodes;
    assert Node(s.l, s.n, s.r) == s;
    PlacedRight(c, s.l, s.n, s.r, root);
    ListingUp(InRight(c, s.l, s.n), s.r);
  }

  lemma DescendAvl(c: Ctx, s: Tree)
    requires s.Node? && Avl(s) && CtxAvl(c, Height(s))
    ensures Avl(s.l) && CtxAvl(InLeft(c, s.n, s.r), Height(s.l))
    ensures Avl(s.r) && CtxAvl(InRight(c, s.l, s.n), Height(s.r))
  {
  }

  // What stands right of an element in ascending order is above it, and the converse.
  lemma Split(a: seq<Command>, n: Command, b: seq<Command>)
    requires Ascending(a + [n] + b)
    ensures forall i :: 0 <= i < |a| ==> a[i].id < n.id
    ensures forall i :: 0 <= i < |b| ==> n.id < b[i].id
  {
    var s := a + [n] + b;
    assert s[|a|] == n;
    forall i | 0 <= i < |a| ensures a[i].id < n.id { assert s[i] == a[i]; }
    forall i | 0 <= i < |b| ensures n.id < b[i].id { assert s[|a| + 1 + i] == b[i]; }
  }

  lemma BetweenLeft(c: Ctx, s: Tree, lo: nat, hi: nat)
    requires s.Node? && Ascending(Listing(c, s)) && Between(c, lo, hi) && hi < s.n.id
    ensures Between(InLeft(c, s.n, s.r), lo, hi)
  {
    hide Inorder, Listing, Ascending;
    ListingAt(c, s);
    Split(Before(c) + Inorder(s.l), s.n, Inorder(s.r) + After(c));
    assert After(InLeft(c, s.n, s.r)) == [s.n] + (Inorder(s.r) + After(c));
  }

  lemma BetweenRight(c: Ctx, s: Tree, lo: nat, hi: nat)
    requires s.Node? && Ascending(Listing(c, s)) && Between(c, lo, hi) && s.n.id < lo
    ensures Between(InRight(c, s.l, s.n), lo, hi)
  {
    hide Inorder, Listing, Ascending;
    ListingAt(c, s);
    Split(Before(c) + Inorder(s.l), s.n, Inorder(s.r) + After(c));
    assert Before(InRight(c, s.l, s.n)) == (Before(c) + Inorder(s.l)) + [s.n];
  }

  // The empty place reached: the ID is new, and its place in the order is there.
  lemma Landed(c: Ctx, was: seq<Command>, n: Command)
    requires Listing(c, Leaf) == was && Ascending(was) && Between(c, n.id, n.id)
    ensures forall i :: 0 <= i < |was| ==> was[i].id != n.id
    ensures |Before(c)| <= |was| && Before(c) + [n] + After(c) == was[..|Before(c)|] + [n] + was[|Before(c)|..]
    ensures Ascending(Before(c) + [n] + After(c))
  {
    hide Before, After;
    var b, a := Before(c), After(c);
    assert was == b + a;
    forall i, j | 0 <= i < j < |b + [n] + a| ensures (b + [n] + a)[i].id < (b + [n] + a)[j].id {
      Spaced(b, a, n, i, j);
    }
    assert was[..|b|] == b && was[|b|..] == a;
  }

  lemma Spaced(b: seq<Command>, a: seq<Command>, n: Command, i: nat, j: nat)
    requires Ascending(b + a) && i < j < |b| + 1 + |a|
    requires forall i :: 0 <= i < |b| ==> b[i].id < n.id
    requires forall i :: 0 <= i < |a| ==> n.id < a[i].id
    ensures (b + [n] + a)[i].id < (b + [n] + a)[j].id
  {
    var s := b + a;
    if j < |b| {
      assert s[i] == b[i] && s[j] == b[j];
    } else if i < |b| < j {
      assert s[i] == b[i] && s[j - 1] == a[j - |b| - 1];
    } else if i > |b| {
      assert s[i - 1] == a[i - |b| - 1] && s[j - 1] == a[j - |b| - 1];
    }
  }

  lemma AtTheRoot(t: Tree, lo: nat, hi: nat)
    ensures CtxAvl(Hole, Height(t)) && Listing(Hole, t) == Inorder(t) && AllNodes(Hole, t) == Nodes(t)
    ensures Between(Hole, lo, hi)
  {
    assert [] + Inorder(t) + [] == Inorder(t);
  }

  // Registers a command unless its ID is taken.
  method InsertCmd(root: Root, newcmd: Command, ghost t: Tree) returns (ret: int, ghost t': Tree)
    requires Index(t, root) && newcmd !in Nodes(t)
    modifies root`node, newcmd`left, newcmd`right, newcmd`parent, newcmd`scale,
             Nodes(t)`left, Nodes(t)`right, Nodes(t)`parent, Nodes(t)`scale
    ensures Index(t', root)
    ensures ret == 1 <==> exists i :: 0 <= i < |Inorder(t)| && Inorder(t)[i].id == newcmd.id
    ensures ret == 1 ==> t' == t
    ensures ret != 1
            ==> ret == 0 && exists k ::
                              0 <= k <= |Inorder(t)| && Inorder(t') == Inorder(t)[..k] + [newcmd] + Inorder(t)[k..]
  {
    hide Linked, Nodes, Distinct, CtxLinked, CtxNodes, CtxDistinct, Avl, Height, Placed, Inorder, CtxAvl, Before,
         After, Ascending;
    var node, parent: Command?, link := root.node, null, AtRoot;
    ghost var c, s := Hole, t;
    WholePlaced(c, t, root);
    NodesExist(t);
    AtTheRoot(t, newcmd.id, newcmd.id);
    while node != null
      invariant node == Top(s) && parent == Above(c) && link == LinkOf(c)
      invariant Placed(c, s, root) && Avl(s) && CtxAvl(c, Height(s))
      invariant Listing(c, s) == Inorder(t) && AllNodes(c, s) == Nodes(t)
      invariant Between(c, newcmd.id, newcmd.id) && Index(t, root)
      decreases s
    {
      FocusTop(c, s, root);
      ListingAt(c, s);
      DescendAvl(c, s);
      parent := node;
      if newcmd.id < node.id {
        DescendLeft(c, s, root);
        BetweenLeft(c, s, newcmd.id, newcmd.id);
        c, s, node, link := InLeft(c, node, s.r), s.l, node.left, AtLeft;
      } else if newcmd.id > node.id {
        DescendRight(c, s, root);
        BetweenRight(c, s, newcmd.id, newcmd.id);
        c, s, node, link := InRight(c, s.l, node), s.r, node.right, AtRight;
      } else {
        return 1, t;
      }
    }
    TopInside(s);
    Landed(c, Inorder(t), newcmd);
    LeafHeight(s);
    t' := Insert(root, newcmd, parent, link, c);
    ret := 0;
  }
}
