// Walking the commands in order (component/shell/avltree.c, avl_next) and completing a
// prefix by a range scan over the hashed IDs (component/shell/shell_src.c, checkout).
module AvlScan {
  import opened AvlTree
  import opened AvlInsert

  // The position in the order of the node a subtree hangs from.
  ghost function Rank(c: Ctx, s: Tree): nat
    requires s.Node?
  {
    |Before(c)| + |Inorder(s.l)|
  }

  // A command at its place in the tree.
  ghost predicate At(c: Ctx, s: Tree, node: Command, list: seq<Command>, k: nat, root: Root)
    reads root, (Nodes(s) + CtxNodes(c))`left, (Nodes(s) + CtxNodes(c))`right, (Nodes(s) + CtxNodes(c))`parent
  {
    s.Node? && s.n == node && Placed(c, s, root) && Listing(c, s) == list && Rank(c, s) == k
  }

  lemma AtPosition(c: Ctx, s: Tree, node: Command, list: seq<Command>, k: nat, root: Root)
    requires At(c, s, node, list, k, root)
    ensures k < |list| && list[k] == node
  {
    ListingAt(c, s);
  }

  lemma OwnPlace(c: Ctx, s: Tree, root: Root)
    requires Placed(c, s, root) && s.Node?
    ensures s.n.parent != s.n
  {
  }

  lemma PlacedUp(c: Ctx, s: Tree, root: Root)
    requires Placed(c, s, root)
    ensures c.InLeft? ==> Placed(c.up, Node(s, c.n, c.r), root)
    ensures c.InRight? ==> Placed(c.up, Node(c.l, c.n, s), root)
  {
    hide Placed;
    if c.InLeft? { PlacedLeft(c.up, s, c.n, c.r, root); }
    if c.InRight? { PlacedRight(c.up, c.l, c.n, s, root); }
  }

  // How far the order reaches left of a subtree and through it.
  lemma Reach(c: Ctx, s: Tree)
    ensures c == Hole ==> |Before(c)| + |Inorder(s)| == |Listing(c, s)|
    ensures c.InLeft? ==> |Before(c)| + |Inorder(s)| == Rank(c.up, Node(s, c.n, c.r))
    ensures c.InRight? ==> |Before(c)| + |Inorder(s)| == |Before(c.up)| + |Inorder(Node(c.l, c.n, s))|
    ensures s.Node? && s.r.Leaf? ==> |Before(c)| + |Inorder(s)| == Rank(c, s) + 1
    ensures s.Node? && s.l.Leaf? ==> Rank(c, s) == |Before(c)|
  {
  }

  // avl_next: the command that follows in ID order, null after the last.
  method Next(node0: Command, root: Root, ghost c: Ctx, ghost s: Tree, ghost list: seq<Command>, ghost k: nat)
    returns (next: Command?, ghost d: Ctx, ghost u: Tree)
    requires At(c, s, node0, list, k, root)
    ensures next == null <==> k + 1 == |list|
    ensures next != null ==> At(d, u, next, list, k + 1, root)
  {
    hide Linked, Nodes, Distinct, CtxLinked, CtxNodes, CtxDistinct, Placed, Inorder, Listing, Before, After;
    FocusTop(c, s, root);
    OwnPlace(c, s, root);
    AtPosition(c, s, node0, list, k, root);
    if node0.parent == node0 {
      return null, c, s;
    }
    var node := node0;
    if node.right != null {
      DescendRight(c, s, root);
      TopInside(s.r);
      node := node.right;
      d, u := InRight(c, s.l, s.n), s.r;
      while node.left != null
        invariant u.Node? && node == u.n && Placed(d, u, root) && Listing(d, u) == list && |Before(d)| == k + 1
        decreases u
      {
        FocusTop(d, u, root);
        DescendLeft(d, u, root);
        TopInside(u.l);
        d, u := InLeft(d, u.n, u.r), u.l;
        node := node.left;
      }
      FocusTop(d, u, root);
      Reach(d, u);
      AtPosition(d, u, node, list, k + 1, root);
      return node, d, u;
    }
    d, u := c, s;
    Reach(c, s);
    while node.parent != null && node == node.parent.right
      invariant u.Node? && node == u.n && Placed(d, u, root) && Listing(d, u) == list
      invariant |Before(d)| + |Inorder(u)| == k + 1
      decreases d
    {
      FocusTop(d, u, root);
      PathFound(d, u, root);
      ListingUp(d, u);
      PlacedUp(d, u, root);
      node := node.parent;
      Reach(d, u);
      d, u := d.up, Node(d.l, d.n, u);
    }
    FocusTop(d, u, root);
    next := node.parent;
    if next == null {
      Reach(d, u);
    } else {
      PathFound(d, u, root);
      ListingUp(d, u);
      PlacedUp(d, u, root);
      Reach(d, u);
      d, u := d.up, Node(u, d.n, d.r);
      AtPosition(d, u, next, list, k + 1, root);
    }
  }

  // ---- Hashed IDs ----

  // The 32-bit ID _shell_register packs: the low six bits of the first character, five
  // of the length, five of the character sum and two check bytes.
  function PackId(first: nat, len: nat, sum: nat, crc1: nat, crc2: nat): nat {
    first % 64 * 0x4000000 + len % 32 * 0x200000 + sum % 32 * 0x10000 + crc1 % 256 * 0x100 + crc2 % 256
  }

  // A command registered under a name of 1 to 31 characters; the sum and the check
  // bytes can be anything.
  ghost predicate Registered(x: Command) {
    && 0 < |x.name| <= 31
    && exists sum: nat, crc1: nat, crc2: nat :: Packed(x, sum, crc1, crc2)
  }

  predicate Packed(x: Command, sum: nat, crc1: nat, crc2: nat)
    requires 0 < |x.name|
  {
    x.id == PackId(x.name[0] as nat, |x.name|, sum, crc1, crc2)
  }

  // The first and the last ID the scan of a prefix looks at, in 32-bit arithmetic. The
  // length of a prefix longer than any name runs into the bits of the character.
  function StartIndex(str: string): nat
    requires 0 < |str|
  {
    var first, len := str[0] as nat % 64 * 0x4000000, |str| * 0x200000;
    if |str| <= 31 then first + len else (first as bv32 | (len % 0x1_0000_0000) as bv32) as nat
  }

  function EndIndex(str: string): nat
    requires 0 < |str|
  {
    (str[0] as nat + 1) % 64 * 0x4000000
  }

  // The end index wraps to zero.
  predicate Wraps(str: string)
    requires 0 < |str|
  {
    str[0] as nat % 64 == 63
  }

  // The fields of an ID, from the top: six bits, five, five, eight and eight.
  lemma IdFields(first: nat, len: nat, sum: nat, crc1: nat, crc2: nat)
    ensures var id := PackId(first, len, sum, crc1, crc2);
            && id < 0x1_0000_0000 && id / 0x400_0000 == first % 64 && id / 0x20_0000 % 32 == len % 32
            && id / 0x1_0000 % 32 == sum % 32 && id / 0x100 % 0x100 == crc1 % 0x100 && id % 0x100 == crc2 % 0x100
  {
    FiveFields(first % 64, len % 32, sum % 32, crc1 % 0x100, crc2 % 0x100);
  }

  lemma FiveFields(a: nat, b: nat, c: nat, d: nat, e: nat)
    requires a < 64 && b < 32 && c < 32 && d < 0x100 && e < 0x100
    ensures var id := a * 0x400_0000 + b * 0x20_0000 + c * 0x1_0000 + d * 0x100 + e;
            && id < 0x1_0000_0000 && id / 0x400_0000 == a && id / 0x20_0000 % 32 == b && id / 0x1_0000 % 32 == c
            && id / 0x100 % 0x100 == d && id % 0x100 == e
  {
    var id := a * 0x400_0000 + b * 0x20_0000 + c * 0x1_0000 + d * 0x100 + e;
    assert id / 0x20_0000 == 32 * a + b;
    assert id / 0x1_0000 == 32 * (32 * a + b) + c;
    assert id / 0x100 == 0x100 * (32 * (32 * a + b) + c) + d;
  }

  // The scan begins at the character and the length of the prefix with nothing behind them,
  // and ends before the next character.
  lemma IndexFields(str: string)
    requires 0 < |str|
    ensures |str| <= 31 ==> StartIndex(str) == PackId(str[0] as nat, |str|, 0, 0, 0)
    ensures EndIndex(str) == PackId(str[0] as nat + 1, 0, 0, 0, 0)
    ensures !Wraps(str) ==> EndIndex(str) == PackId(str[0] as nat, 0, 0, 0, 0) + 0x400_0000
    ensures Wraps(str) ==> EndIndex(str) == 0
  {
  }

  lemma IdRange(x: Command)
    requires Registered(x)
    ensures x.name[0] as nat % 64 * 0x4000000 + |x.name| * 0x200000
            <= x.id < x.name[0] as nat % 64 * 0x4000000 + (|x.name| + 1) * 0x200000
  {
  }

  // A name that begins with the prefix lies in the range, unless the range wraps.
  lemma PrefixInRange(x: Command, str: string)
    requires Registered(x) && 0 < |str| && str <= x.name
    ensures StartIndex(str) <= x.id && (!Wraps(str) ==> x.id < EndIndex(str))
  {
    IdRange(x);
    assert x.name[0] == str[0];
  }

  // Whether the descent passes over a command on the index itself: it does when that
  // command has a right child.
  ghost predicate Skipped(t: Tree, index: nat) {
    t.Node? && if index < t.n.id then Skipped(t.l, index)
                 else if t.n.id == index then t.r.Node? else Skipped(t.r, index)
  }

  // A command whose name begins with the prefix, other than one passed over.
  ghost predicate Hit(x: Command, str: string, skip: bool)
    requires 0 < |str|
  {
    str <= x.name && !(skip && x.id == StartIndex(str))
  }

  // The hits of a list.
  ghost function Matches(list: seq<Command>, str: string, skip: bool): seq<Command>
    requires 0 < |str|
  {
    if list == [] then [] else
      var x := list[|list| - 1];
      Matches(list[..|list| - 1], str, skip) + if Hit(x, str, skip) then [x] else []
  }

  ghost predicate AllRegistered(list: seq<Command>) {
    forall i :: 0 <= i < |list| ==> Registered(list[i])
  }

  // A command with a matching name on the start index is the one of exactly that name,
  // with a sum and check bytes of zero.
  lemma OnStart(x: Command, str: string)
    requires Registered(x) && 0 < |str|
    ensures str <= x.name && x.id == StartIndex(str) ==> x.name == str
    ensures x.name == str ==> (x.id == StartIndex(str) <==> Packed(x, 0, 0, 0))
  {
    IdRange(x);
    if x.name == str {
      assert PackId(x.name[0] as nat, |x.name|, 0, 0, 0) == StartIndex(str);
    }
  }

  lemma {:induction false} NoMatches(list: seq<Command>, str: string, skip: bool)
    requires 0 < |str| && forall i :: 0 <= i < |list| ==> !Hit(list[i], str, skip)
    ensures Matches(list, str, skip) == []
  {
    if list != [] { NoMatches(list[..|list| - 1], str, skip); }
  }

  lemma {:induction false} MatchesJoin(a: seq<Command>, b: seq<Command>, str: string, skip: bool)
    requires 0 < |str|
    ensures Matches(a + b, str, skip) == Matches(a, str, skip) + Matches(b, str, skip)
  {
    if b == [] {
      assert a + b == a;
    } else {
      var k := |b| - 1;
      MatchesJoin(a, b[..k], str, skip);
      assert (a + b)[..|a + b| - 1] == a + b[..k] && (a + b)[|a + b| - 1] == b[k];
    }
  }

  // Everything the scan skips before its start is no hit.
  lemma BelowStart(list: seq<Command>, str: string, p: nat, skip: bool)
    requires 0 < |str| && p <= |list| && AllRegistered(list)
    requires forall i :: 0 <= i < p ==> list[i].id <= StartIndex(str)
    requires forall i :: 0 <= i < p && list[i].id == StartIndex(str) ==> skip
    ensures Matches(list[..p], str, skip) == []
  {
    hide Registered, StartIndex, Wraps, EndIndex;
    forall i | 0 <= i < p ensures !Hit(list[i], str, skip) {
      if str <= list[i].name { PrefixInRange(list[i], str); }
    }
    NoMatches(list[..p], str, skip);
  }

  // Nothing from the first ID above the end on matches.
  lemma AboveEnd(list: seq<Command>, str: string, q: nat, skip: bool)
    requires 0 < |str| && q < |list| && AllRegistered(list) && Ascending(list)
    requires !Wraps(str) && list[q].id > EndIndex(str)
    ensures Matches(list, str, skip) == Matches(list[..q], str, skip)
  {
    hide Registered, StartIndex, Wraps, EndIndex, Matches;
    forall i | q <= i < |list| ensures !Hit(list[i], str, skip) {
      if str <= list[i].name { PrefixInRange(list[i], str); }
    }
    NoMatches(list[q..], str, skip);
    MatchesJoin(list[..q], list[q..], str, skip);
    assert list[..q] + list[q..] == list;
  }

  lemma OneMore(list: seq<Command>, str: string, q: nat, skip: bool)
    requires q < |list| && 0 < |str|
    ensures Matches(list[..q + 1], str, skip)
            == Matches(list[..q], str, skip) + if Hit(list[q], str, skip) then [list[q]] else []
    ensures Matches(list[..q + 1], str, skip) <= Matches(list, str, skip)
  {
    assert list[..q + 1][..q] == list[..q];
    MatchesJoin(list[..q + 1], list[q + 1..], str, skip);
    assert list[..q + 1] + list[q + 1..] == list;
  }

  // What the scan looks at: the hits, or nothing when the end index of the prefix wraps.
  ghost function Seen(list: seq<Command>, str: string, skip: bool): seq<Command>
    requires 0 < |str|
  {
    if Wraps(str) then [] else Matches(list, str, skip)
  }

  // What checkout returns: the hits in ID order, none when they are too many.
  ghost function Found(list: seq<Command>, str: string, checkmax: nat, skip: bool): seq<Command>
    requires 0 < |str|
  {
    if |Seen(list, str, skip)| > checkmax then [] else Seen(list, str, skip)
  }

  // How many entries checkout stores: the one too many is stored before it is counted.
  ghost function Stores(list: seq<Command>, str: string, checkmax: nat, skip: bool): nat
    requires 0 < |str|
  {
    if |Seen(list, str, skip)| > checkmax then checkmax + 1 else |Seen(list, str, skip)|
  }

  // The descent of checkout under way: `b` commands lie before the place, `p` before the
  // command visited last; a command on the index has been passed, or can lie below.
  ghost predicate Descending(list: seq<Command>, b: nat, u: Tree, p: nat, index: nat, skip: bool, passed: bool) {
    && b <= |list|
    && if passed then b > 0 && list[b - 1].id == index && p + 1 >= b && (skip <==> u.Node? || p >= b)
       else (forall i :: 0 <= i < b ==> list[i].id < index) && skip == Skipped(u, index)
  }

  lemma GoLeft(list: seq<Command>, b: nat, u: Tree, p: nat, r: nat, index: nat, skip: bool, passed: bool)
    requires Descending(list, b, u, p, index, skip, passed) && u.Node? && r == b + |Inorder(u.l)| && index < u.n.id
    ensures Descending(list, b, u.l, r, index, skip, passed)
  {
  }

  lemma GoRight(list: seq<Command>, b: nat, u: Tree, p: nat, r: nat, index: nat, skip: bool, passed: bool)
    requires Descending(list, b, u, p, index, skip, passed) && u.Node? && r == b + |Inorder(u.l)| && u.n.id <= index
    requires Ascending(list) && r < |list| && list[r] == u.n
    ensures Descending(list, r + 1, u.r, r, index, skip, u.n.id == index)
  {
    hide Inorder;
  }

  // Where the descent has ended, a command on the index lies before the start exactly
  // when it is passed over.
  lemma DescentEnds(d: Ctx, list: seq<Command>, p: nat, index: nat, skip: bool, passed: bool)
    requires list == Listing(d, Leaf) && Between(d, index + 1, index) && Ascending(list)
    requires Descending(list, |Before(d)|, Leaf, p, index, skip, passed)
    ensures forall i :: 0 <= i < |list| && list[i].id == index ==> (i < p <==> skip)
  {
    hide Before, After;
    var b := |Before(d)|;
    assert list == Before(d) + After(d);
    assert forall i :: b <= i < |list| ==> list[i] == After(d)[i - b];
  }

  // The descent of checkout: the command visited last has everything before it at or
  // below the start index, and a command on that index behind it unless it is skipped.
  method FindStart(root: Root, index: nat, ghost t: Tree)
    returns (start: Command?, ghost c: Ctx, ghost s: Tree, ghost p: nat)
    requires Index(t, root)
    ensures start == null <==> Inorder(t) == []
    ensures start == null ==> p == 0
    ensures start != null ==> At(c, s, start, Inorder(t), p, root)
    ensures start != null ==> forall i :: 0 <= i < p ==> Inorder(t)[i].id <= index
    ensures forall i :: 0 <= i < |Inorder(t)| && Inorder(t)[i].id == index ==> (i < p <==> Skipped(t, index))
  {
    hide Linked, Nodes, Distinct, CtxLinked, CtxNodes, CtxDistinct, Avl, Placed, Inorder, Before, After, Ascending,
         CtxAvl, Listing, Skipped, Descending;
    var node := root.node;
    start := null;
    ghost var d, u, passed := Hole, t, false;
    ghost var list, skip := Inorder(t), Skipped(t, index);
    c, s, p := Hole, t, 0;
    WholePlaced(d, t, root);
    AtTheRoot(t, index + 1, index);
    Reach(Hole, t);
    DescentStarts(list, t, index);
    while node != null
      invariant node == Top(u) && Placed(d, u, root) && Listing(d, u) == list && Between(d, index + 1, index)
      invariant start == null ==> d == Hole && u == t && p == 0
      invariant start != null ==> At(c, s, start, list, p, root) && p <= |Before(d)| + |Inorder(u)|
      invariant Descending(list, |Before(d)|, u, p, index, skip, passed)
      decreases u
    {
      FocusTop(d, u, root);
      ghost var r := Rank(d, u);
      AtPosition(d, u, node, list, r, root);
      if index < node.id {
        DescendLeft(d, u, root);
        BetweenLeft(d, u, index + 1, index);
        GoLeft(list, |Before(d)|, u, p, r, index, skip, passed);
      } else {
        DescendRight(d, u, root);
        BetweenRight(d, u, index + 1, index);
        GoRight(list, |Before(d)|, u, p, r, index, skip, passed);
      }
      start, c, s, p := node, d, u, r;
      if index < node.id {
        d, u, node := InLeft(d, u.n, u.r), u.l, node.left;
      } else {
        passed := node.id == index;
        d, u, node := InRight(d, u.l, u.n), u.r, node.right;
      }
    }
    TopInside(u);
    LeafOrder(d, u);
    DescentEnds(d, list, p, index, skip, passed);
    if start != null { AtPosition(c, s, start, list, p, root); }
  }

  lemma DescentStarts(list: seq<Command>, t: Tree, index: nat)
    ensures |Before(Hole)| == 0 && Descending(list, 0, t, 0, index, Skipped(t, index), false)
  {
  }

  lemma LeafOrder(c: Ctx, t: Tree)
    ensures t.Leaf? ==> Inorder(t) == []
    ensures t.Node? ==> Inorder(t) != []
    ensures forall i :: 0 <= i < |Before(c)| ==> Listing(c, t)[i] == Before(c)[i]
  {
  }

  // The scan ends where the IDs leave the range.
  lemma Stopped(list: seq<Command>, str: string, q: nat, skip: bool)
    requires 0 < |str| && q < |list| && AllRegistered(list) && Ascending(list)
    requires list[q].id > EndIndex(str)
    requires Wraps(str) ==> Matches(list[..q], str, skip) == []
    ensures Matches(list[..q], str, skip) == Seen(list, str, skip)
  {
    hide Registered, StartIndex, Wraps, EndIndex, AllRegistered, Ascending, Matches;
    if !Wraps(str) { AboveEnd(list, str, q, skip); }
  }

  lemma GoesOn(x: Command, str: string)
    requires Registered(x) && 0 < |str| && x.id <= EndIndex(str)
    ensures !Wraps(str)
  {
    IdRange(x);
  }

  // The hits stored so far, with the memory behind them as it was.
  ghost predicate Stored(now: seq<Command?>, was: seq<Command?>, hits: seq<Command>) {
    |now| == |was| && |hits| <= |now| && now[..|hits|] == hits && now[|hits|..] == was[|hits|..]
  }

  lemma NoneStored(was: seq<Command?>)
    ensures Stored(was, was, [])
  {
  }

  lemma AllStored(now: seq<Command?>, was: seq<Command?>, hits: seq<Command>)
    requires Stored(now, was, hits)
    ensures |hits| <= |now| && now[..|hits|] == hits && hits[..|hits|] == hits
  {
  }

  lemma StoredMore(now: seq<Command?>, was: seq<Command?>, hits: seq<Command>, node: Command)
    requires Stored(now, was, hits) && |hits| < |now|
    ensures Stored(now[|hits| := node], was, hits + [node])
  {
    assert now[|hits| := node][..|hits|] == hits;
  }

  lemma NotWrapped(list: seq<Command>, str: string, skip: bool, hits: seq<Command>)
    requires 0 < |str| && hits == Matches(list, str, skip) && (Wraps(str) ==> hits == [])
    ensures hits == Seen(list, str, skip)
  {
  }

  // One hit more is one entry more to be stored.
  lemma RoomForOne(list: seq<Command>, str: string, checkmax: nat, skip: bool, hits: seq<Command>, node: Command)
    requires 0 < |str| && !Wraps(str) && hits + [node] <= Matches(list, str, skip) && |hits| <= checkmax
    ensures |hits| < Stores(list, str, checkmax, skip) && Seen(list, str, skip)[..|hits| + 1] == hits + [node]
    ensures |hits| == checkmax
            ==> Stores(list, str, checkmax, skip) == |hits| + 1 && Found(list, str, checkmax, skip) == []
  {
  }

  // checkout: the commands whose names begin with str, in ID order. The array is the
  // memory from the caller's array on.
  method Checkout(str: string, out: array<Command?>, checkmax: nat, root: Root, ghost t: Tree) returns (matchnums: nat)
    requires Index(t, root) && 0 < |str| && AllRegistered(Inorder(t))
    requires Stores(Inorder(t), str, checkmax, Skipped(t, StartIndex(str))) <= out.Length
    modifies out
    ensures matchnums == |Found(Inorder(t), str, checkmax, Skipped(t, StartIndex(str)))| <= out.Length
    ensures out[..matchnums] == Found(Inorder(t), str, checkmax, Skipped(t, StartIndex(str)))
    ensures var hits := Seen(Inorder(t), str, Skipped(t, StartIndex(str)));
            Stored(out[..], old(out[..]), hits[..Stores(Inorder(t), str, checkmax, Skipped(t, StartIndex(str)))])
  {
    hide Linked, Nodes, Distinct, CtxLinked, CtxNodes, CtxDistinct, Avl, Placed, Inorder, Before, After, Ascending,
         Listing, Registered, StartIndex, EndIndex, Wraps, Matches, At, Whole, Skipped, Seen, Stored;
    var index, end := StartIndex(str), EndIndex(str);
    matchnums := 0;
    ghost var list, skip, was := Inorder(t), Skipped(t, index), out[..];
    var node, c, s, q := FindStart(root, index, t);
    if node != null { AtPosition(c, s, node, list, q, root); }
    BelowStart(list, str, q, skip);
    ghost var hits: seq<Command> := [];
    NoneStored(was);
    while node != null
      invariant node != null ==> At(c, s, node, list, q, root)
      invariant node == null ==> q == |list|
      invariant q <= |list| && hits == Matches(list[..q], str, skip) && matchnums == |hits| <= checkmax
      invariant hits <= Matches(list, str, skip) && Stored(out[..], was, hits)
      invariant forall i :: q <= i < |list| && list[i].id == index ==> !skip
      invariant Wraps(str) ==> hits == []
      decreases |list| - q
    {
      AtPosition(c, s, node, list, q, root);
      if node.id > end {
        Stopped(list, str, q, skip);
        AllStored(out[..], was, hits);
        return;
      }
      GoesOn(list[q], str);
      OneMore(list, str, q, skip);
      if str <= node.name {
        RoomForOne(list, str, checkmax, skip, hits, node);
        StoredMore(out[..], was, hits, node);
        out[matchnums] := node;
        hits := hits + [node];
        matchnums := matchnums + 1;
        if matchnums > checkmax {
          return 0;
        }
      }
      node, c, s := Next(node, root, c, s, list, q);
      q := q + 1;
    }
    assert list[..q] == list;
    AllStored(out[..], was, hits);
    NotWrapped(list, str, skip, hits);
  }

  // A matching command on the start index.
  ghost predicate StartTaken(list: seq<Command>, str: string)
    requires 0 < |str|
  {
    exists i :: 0 <= i < |list| && str <= list[i].name && list[i].id == StartIndex(str)
  }

  // Passing over the start index loses a match exactly when there is one on it.
  lemma {:induction false} SkippedFewer(list: seq<Command>, str: string)
    requires 0 < |str|
    ensures if StartTaken(list, str) then |Matches(list, str, true)| < |Matches(list, str, false)|
            else Matches(list, str, true) == Matches(list, str, false)
  {
    hide StartIndex;
    if list != [] {
      var k := |list| - 1;
      SkippedFewer(list[..k], str);
      assert StartTaken(list, str)
             <==> StartTaken(list[..k], str) || (str <= list[k].name && list[k].id == StartIndex(str)) by {
        if StartTaken(list[..k], str) {
          var i :| 0 <= i < k && str <= list[..k][i].name && list[..k][i].id == StartIndex(str);
          assert str <= list[i].name && list[i].id == StartIndex(str);
        }
        if StartTaken(list, str) {
          var i :| 0 <= i < |list| && str <= list[i].name && list[i].id == StartIndex(str);
          assert i < k ==> list[..k][i] == list[i];
        }
      }
    }
  }

  // Completion finds precisely the commands whose names begin with the prefix if and
  // only if there are none, or the range does not wrap, no match on the start index is
  // passed over, and they are not too many.
  lemma CompletionExact(list: seq<Command>, str: string, checkmax: nat, skip: bool)
    requires 0 < |str|
    ensures var all := Matches(list, str, false);
            Found(list, str, checkmax, skip) == all
            <==> all == [] || (!Wraps(str) && !(skip && StartTaken(list, str)) && |all| <= checkmax)
  {
    hide Matches, StartTaken;
    SkippedFewer(list, str);
  }

  // Every store is inside an array of n entries if and only if the range wraps, the
  // hits fit, or the limit is below n.
  lemma StoresInside(list: seq<Command>, str: string, checkmax: nat, skip: bool, n: nat)
    requires 0 < |str|
    ensures Stores(list, str, checkmax, skip) <= n <==> Wraps(str) || |Matches(list, str, skip)| <= n || checkmax < n
  {
  }

  // shell_tab has ten entries and passes 10: with eleven commands that begin with the
  // prefix, an eleventh is stored behind them, and nothing returned.
  lemma {:induction false} ElevenMatches(list: seq<Command>, str: string)
    requires 0 < |str| && !Wraps(str) && |list| == 11
    requires forall i :: 0 <= i < |list| ==> str < list[i].name && list[i].id != StartIndex(str)
    ensures Stores(list, str, 10, true) == Stores(list, str, 10, false) == 11
    ensures Found(list, str, 10, true) == Found(list, str, 10, false) == []
  {
    AllMatch(list, str, true);
    AllMatch(list, str, false);
  }

  lemma {:induction false} AllMatch(list: seq<Command>, str: string, skip: bool)
    requires 0 < |str| && forall i :: 0 <= i < |list| ==> Hit(list[i], str, skip)
    ensures Matches(list, str, skip) == list
  {
    if list != [] {
      AllMatch(list[..|list| - 1], str, skip);
      assert list == list[..|list| - 1] + [list[|list| - 1]];
    }
  }

  // A prefix whose first character has its low six bits all set completes to nothing,
  // whatever is registered.
  lemma WrapMisses(x: Command, skip: bool)
    requires Registered(x) && x.name == "?help"
    ensures Matches([x], "?h", skip) == [x] && Found([x], "?h", 10, skip) == []
  {
    assert '?' as nat % 64 == 63;
    assert [x][..0] == [];
    assert x.name[..2] == "?h";
    assert Matches([], "?h", skip) == [];
    IdRange(x);
  }
}
