// cJSON trees on the heap: nodes with child lists, sorted and compared in place
// (component/cJSON/cJSON_Utils.c, sort_object and compare_json).
module JsonTrees {
  import opened JsonValues
  import opened JsonSort
  import opened JsonCompare

  // ---- Trees of nodes ----

  // A node with the trees of its children in list order.
  datatype Tree = Tree(node: Item, kids: seq<Tree>)

  ghost function Tops(ks: seq<Tree>): (r: seq<Item>)
    ensures |r| == |ks|
  {
    seq(|ks|, i requires 0 <= i < |ks| => ks[i].node)
  }

  ghost function Nodes(t: Tree): set<Item> {
    {t.node} + Under(t.kids)
  }

  ghost function Under(ks: seq<Tree>): set<Item> {
    if ks == [] then {} else Nodes(ks[0]) + Under(ks[1..])
  }

  lemma {:induction false} InUnder(ks: seq<Tree>, x: Item)
    ensures x in Under(ks) <==> exists i :: 0 <= i < |ks| && x in Nodes(ks[i])
    decreases ks
  {
    if ks != [] {
      InUnder(ks[1..], x);
      if x in Under(ks[1..]) {
        var i :| 0 <= i < |ks[1..]| && x in Nodes(ks[1..][i]);
        assert x in Nodes(ks[i + 1]);
      }
      if exists i :: 0 <= i < |ks| && x in Nodes(ks[i]) {
        var i :| 0 <= i < |ks| && x in Nodes(ks[i]);
        if i > 0 { assert x in Nodes(ks[1..][i - 1]); }
      }
    }
  }

  // Every node occurs once.
  ghost predicate Separate(t: Tree) {
    && t.node !in Under(t.kids)
    && (forall i, j :: 0 <= i < j < |t.kids| ==> Nodes(t.kids[i]) !! Nodes(t.kids[j]))
    && forall i :: 0 <= i < |t.kids| ==> Separate(t.kids[i])
  }

  // The pointers are those of the tree.
  ghost predicate Linked(t: Tree)
    reads Nodes(t)`child, Under(t.kids)`next, Under(t.kids)`prev
    decreases t
  {
    KidsUnder(t.kids);
    DoublyLinked(Tops(t.kids), t.node.child) && forall i :: 0 <= i < |t.kids| ==> Linked(t.kids[i])
  }

  lemma KidsUnder(ks: seq<Tree>)
    ensures forall i :: 0 <= i < |ks| ==> Nodes(ks[i]) <= Under(ks)
    ensures forall i :: 0 <= i < |ks| ==> ks[i].node in Under(ks)
    ensures forall i :: 0 <= i < |ks| ==> Tops(ks)[i] in Under(ks)
  {
    forall i, x | 0 <= i < |ks| && x in Nodes(ks[i]) ensures x in Under(ks) { InUnder(ks, x); }
  }

  // The JSON value a tree of nodes is.
  ghost function JsonOf(t: Tree, cs: bool): Json {
    match t.node.value
    case Array(_) => Array(ItemsOf(t.kids, cs))
    case Object(_) => Object(PairsOf(t.kids, cs))
    case v => v
  }

  ghost function ItemsOf(ks: seq<Tree>, cs: bool): (r: seq<Json>)
    ensures |r| == |ks|
  {
    seq(|ks|, i requires 0 <= i < |ks| => JsonOf(ks[i], cs))
  }

  ghost function PairsOf(ks: seq<Tree>, cs: bool): (r: seq<Member>)
    ensures |r| == |ks|
  {
    seq(|ks|, i requires 0 <= i < |ks| => Member(Fold(ks[i].node.key, cs), JsonOf(ks[i], cs)))
  }

  // Its meaning, keys counting as the mode has it; keys distinct in every object then.
  ghost function MeaningOf(t: Tree, cs: bool): Value {
    Meaning(JsonOf(t, cs))
  }

  ghost predicate TidyTree(t: Tree, cs: bool) {
    Tidy(JsonOf(t, cs))
  }

  // ---- Reordering the children ----

  ghost predicate DistinctNodes(ks: seq<Tree>) {
    forall i, j :: 0 <= i < j < |ks| ==> ks[i].node != ks[j].node
  }

  // The child tree of a node.
  ghost function KidOf(ks: seq<Tree>, x: Item): (t: Tree)
    ensures x in Tops(ks) ==> t in ks && t.node == x
  {
    if x in Tops(ks) then
      var i :| 0 <= i < |ks| && Tops(ks)[i] == x;
      ks[i]
    else Tree(x, [])
  }

  lemma OwnKid(ks: seq<Tree>, i: nat)
    requires DistinctNodes(ks) && i < |ks|
    ensures KidOf(ks, ks[i].node) == ks[i]
  {
    assert Tops(ks)[i] == ks[i].node;
  }

  // The children in the order of their nodes in another list.
  ghost function Along(ks: seq<Tree>, r: seq<Item>): (us: seq<Tree>)
    ensures |us| == |r|
  {
    Image((x: Item) => KidOf(ks, x), r)
  }

  lemma AlongShuffled(ks: seq<Tree>, r: seq<Item>)
    requires DistinctNodes(ks) && multiset(r) == multiset(Tops(ks))
    ensures multiset(Along(ks, r)) == multiset(ks) && |Along(ks, r)| == |ks| && Tops(Along(ks, r)) == r
  {
    hide KidOf;
    var f := (x: Item) => KidOf(ks, x);
    ImageShuffled(f, Tops(ks), r);
    forall i | 0 <= i < |ks| ensures Image(f, Tops(ks))[i] == ks[i] { OwnKid(ks, i); }
    assert Image(f, Tops(ks)) == ks;
    assert Along(ks, r) == Image(f, r);
    SameElements(Tops(ks), r);
    assert forall i :: 0 <= i < |r| ==> Along(ks, r)[i].node == r[i];
  }

  // A node whose children have changed places.
  lemma Shuffle(t: Tree, us: seq<Tree>)
    requires Separate(t) && multiset(us) == multiset(t.kids)
    ensures |us| == |t.kids| && Under(us) == Under(t.kids) && Separate(Tree(t.node, us))
    ensures forall i :: 0 <= i < |us| ==> us[i] in t.kids
  {
    hide Separate, Nodes, Under;
    SameElements(us, t.kids);
    SameElements(t.kids, us);
    SameUnder(us, t.kids);
    SeparateShuffled(t, us);
  }

  lemma PairsShuffled(us: seq<Tree>, ks: seq<Tree>, cs: bool)
    requires multiset(us) == multiset(ks)
    ensures multiset(PairsOf(us, cs)) == multiset(PairsOf(ks, cs)) && |us| == |ks|
  {
    hide JsonOf;
    var f := (k: Tree) => Member(Fold(k.node.key, cs), JsonOf(k, cs));
    ImageShuffled(f, us, ks);
    assert PairsOf(us, cs) == Image(f, us) && PairsOf(ks, cs) == Image(f, ks);
  }

  lemma DistinctShuffled<T>(a: seq<T>, b: seq<T>)
    requires multiset(a) == multiset(b) && forall i, j :: 0 <= i < j < |a| ==> a[i] != a[j]
    ensures forall i, j :: 0 <= i < j < |b| ==> b[i] != b[j]
  {
    forall i, j | 0 <= i < j < |b| ensures b[i] != b[j] {
      if b[i] == b[j] {
        Twice(b, i, j);
        AtMostOnce(a, b[i]);
        assert false;
      }
    }
  }

  lemma SeparateShuffled(t: Tree, us: seq<Tree>)
    requires Separate(t) && multiset(us) == multiset(t.kids) && Under(us) == Under(t.kids)
    requires forall i :: 0 <= i < |us| ==> us[i] in t.kids
    ensures Separate(Tree(t.node, us))
  {
    hide Under, Nodes, Separate;
    var ks := t.kids;
    forall i, j | 0 <= i < j < |ks| ensures ks[i] != ks[j] { DifferentKids(t, i, j); }
    DistinctShuffled(ks, us);
    SeparateParts(t);
    forall i, j | 0 <= i < j < |us| ensures Nodes(us[i]) !! Nodes(us[j]) {
      var a :| 0 <= a < |ks| && ks[a] == us[i];
      var b :| 0 <= b < |ks| && ks[b] == us[j];
      KidsApart(t, a, b);
    }
    FromParts(Tree(t.node, us));
  }

  lemma SeparateParts(t: Tree)
    requires Separate(t)
    ensures t.node !in Under(t.kids) && forall i :: 0 <= i < |t.kids| ==> Separate(t.kids[i])
  {
  }

  lemma FromParts(t: Tree)
    requires t.node !in Under(t.kids) && forall i :: 0 <= i < |t.kids| ==> Separate(t.kids[i])
    requires forall i, j :: 0 <= i < j < |t.kids| ==> Nodes(t.kids[i]) !! Nodes(t.kids[j])
    ensures Separate(t)
  {
  }

  lemma KidsApart(t: Tree, i: nat, j: nat)
    requires Separate(t) && i < |t.kids| && j < |t.kids|
    ensures i != j ==> Nodes(t.kids[i]) !! Nodes(t.kids[j])
  {
    hide Nodes, Under;
  }

  lemma DifferentKids(t: Tree, i: nat, j: nat)
    requires Separate(t) && i < j < |t.kids|
    ensures t.kids[i] != t.kids[j] && t.kids[i].node != t.kids[j].node
  {
    assert t.kids[i].node in Nodes(t.kids[i]) && t.kids[j].node in Nodes(t.kids[j]);
  }

  lemma SameUnder(us: seq<Tree>, ks: seq<Tree>)
    requires (forall i :: 0 <= i < |us| ==> us[i] in ks) && (forall i :: 0 <= i < |ks| ==> ks[i] in us)
    ensures Under(us) == Under(ks)
  {
    UnderWithin(us, ks);
    UnderWithin(ks, us);
  }

  lemma UnderWithin(us: seq<Tree>, ks: seq<Tree>)
    requires forall i :: 0 <= i < |us| ==> us[i] in ks
    ensures Under(us) <= Under(ks)
  {
    hide Nodes, Under;
    forall x | x in Under(us) ensures x in Under(ks) {
      InUnder(us, x);
      InUnder(ks, x);
      var i :| 0 <= i < |us| && x in Nodes(us[i]);
      var j :| 0 <= j < |ks| && ks[j] == us[i];
    }
  }

  // The nodes of a tree at hand have been allocated.
  lemma {:induction false} NodesExist(t: Tree)
    ensures forall x :: x in Nodes(t) ==> allocated(x)
    decreases t, 1
  {
    UnderExist(t.kids);
  }

  lemma {:induction false} UnderExist(ks: seq<Tree>)
    ensures forall x :: x in Under(ks) ==> allocated(x)
    decreases ks, 0
  {
    if ks != [] {
      NodesExist(ks[0]);
      UnderExist(ks[1..]);
    }
  }

  lemma KidsExist(ks: seq<Tree>)
    ensures forall i, x :: 0 <= i < |ks| && x in Nodes(ks[i]) ==> allocated(x)
    ensures forall i, x :: 0 <= i < |ks| && x in Under(ks[i].kids) ==> allocated(x)
  {
    hide Under;
    forall i | 0 <= i < |ks| ensures forall x :: x in Nodes(ks[i]) ==> allocated(x) { NodesExist(ks[i]); }
    forall i | 0 <= i < |ks| ensures forall x :: x in Under(ks[i].kids) ==> allocated(x) { UnderExist(ks[i].kids); }
  }

  // ---- sort_object ----

  // What lies below a child is none of the children, and not their parent.
  lemma DeepApart(t: Tree, i: nat)
    requires Separate(t) && i < |t.kids|
    ensures t.node !in Nodes(t.kids[i])
    ensures forall x :: x in Under(t.kids[i].kids) ==> x !in Tops(t.kids)
  {
    hide Under;
    KidsUnder(t.kids);
    forall x, j | x in Under(t.kids[i].kids) && 0 <= j < |t.kids| ensures Tops(t.kids)[j] != x {
      if j != i {
        KidsApart(t, i, j);
        assert x in Nodes(t.kids[i]) && t.kids[j].node in Nodes(t.kids[j]);
      }
    }
  }

  lemma AllDeepApart(t: Tree)
    requires Separate(t)
    ensures forall i :: 0 <= i < |t.kids| ==> t.node !in Nodes(t.kids[i])
    ensures forall i, x :: 0 <= i < |t.kids| && x in Under(t.kids[i].kids) ==> x !in Tops(t.kids)
  {
    hide Separate, Nodes, Under;
    forall i | 0 <= i < |t.kids|
      ensures t.node !in Nodes(t.kids[i]) && forall x :: x in Under(t.kids[i].kids) ==> x !in Tops(t.kids)
    {
      DeepApart(t, i);
    }
  }

  // The child list sorted, everything below the children staying in place.
  method SortKids(owner: Item, cs: bool, ghost ks: seq<Tree>) returns (ghost r: seq<Item>)
    requires DoublyLinked(Tops(ks), owner.child) && forall i :: 0 <= i < |ks| ==> Linked(ks[i])
    requires forall i :: 0 <= i < |ks| ==> owner !in Nodes(ks[i])
    requires forall i, x :: 0 <= i < |ks| && x in Under(ks[i].kids) ==> x !in Tops(ks)
    modifies owner`child, Tops(ks)`next, Tops(ks)`prev
    ensures DoublyLinked(r, owner.child) && Ordered(Keys(r), cs) && multiset(r) == multiset(Tops(ks))
    ensures forall i :: 0 <= i < |ks| ==> Linked(ks[i])
  {
    hide Ordered, Keys, Nodes, Under, Linked, DoublyLinked;
    KidsExist(ks);
    var result;
    result, r := SortList(owner.child, cs, Tops(ks));
    forall i | 0 <= i < |ks| ensures Linked(ks[i]) {
      assert forall x :: x in Under(ks[i].kids) ==> x !in Tops(ks);
      assert forall x :: x in Under(ks[i].kids) ==> old(allocated(x));
      assert forall x :: x in Nodes(ks[i]) ==> old(allocated(x));
      assert old(allocated(ks[i]));
      assert old(Linked(ks[i]));
    }
    label Sorted:
    owner.child := result;
    forall i | 0 <= i < |ks| ensures Linked(ks[i]) {
      assert old@Sorted(allocated(ks[i])) && old@Sorted(Linked(ks[i]));
    }
  }

  // sort_object: the children in key order, each with what is below it.
  method SortHere(owner: Item, cs: bool, ghost t: Tree) returns (ghost u: Tree)
    requires t.node == owner && Linked(t) && Separate(t)
    modifies owner`child, Tops(t.kids)`next, Tops(t.kids)`prev
    ensures u.node == owner && Nodes(u) == Nodes(t) && Linked(u) && Separate(u)
    ensures multiset(u.kids) == multiset(t.kids) && Ordered(Keys(Tops(u.kids)), cs)
  {
    hide Ordered, Keys, Separate, Nodes, Under, DoublyLinked;
    AllDeepApart(t);
    ghost var ks := t.kids;
    ghost var r := SortKids(owner, cs, ks);
    DistinctTops(t);
    AlongShuffled(ks, r);
    ghost var us := Along(ks, r);
    Shuffle(t, us);
    u := Tree(owner, us);
    NodesAgain(t, u);
  }

  lemma DistinctTops(t: Tree)
    requires Separate(t)
    ensures DistinctNodes(t.kids)
  {
    forall i, j | 0 <= i < j < |t.kids| ensures t.kids[i].node != t.kids[j].node { DifferentKids(t, i, j); }
  }

  lemma NodesAgain(t: Tree, u: Tree)
    requires u.node == t.node && Under(u.kids) == Under(t.kids)
    ensures Nodes(u) == Nodes(t)
  {
  }

  // ---- One child and what is around it ----

  // All pointers of a tree but those below one child.
  ghost predicate Around(t: Tree, i: nat)
    requires Separate(t) && i < |t.kids|
    reads (Nodes(t) - Nodes(t.kids[i]))`child
    reads (Under(t.kids) - Under(t.kids[i].kids))`next, (Under(t.kids) - Under(t.kids[i].kids))`prev
  {
    OutsideKid(t, i);
    DoublyLinked(Tops(t.kids), t.node.child) && forall j :: 0 <= j < |t.kids| && j != i ==> Linked(t.kids[j])
  }

  lemma OutsideKid(t: Tree, i: nat)
    requires Separate(t) && i < |t.kids|
    ensures t.node !in Nodes(t.kids[i])
    ensures forall j :: 0 <= j < |t.kids|
              ==> Tops(t.kids)[j] in Under(t.kids) && Tops(t.kids)[j] !in Under(t.kids[i].kids)
    ensures forall j :: 0 <= j < |t.kids| && j != i
              ==> Nodes(t.kids[j]) <= Under(t.kids) && Nodes(t.kids[j]) !! Nodes(t.kids[i])
    ensures forall j :: 0 <= j < |t.kids| && j != i
              ==> Under(t.kids[j].kids) <= Under(t.kids) && Under(t.kids[j].kids) !! Under(t.kids[i].kids)
  {
    hide Under;
    DeepApart(t, i);
    KidsUnder(t.kids);
    forall j | 0 <= j < |t.kids| && j != i ensures Nodes(t.kids[j]) !! Nodes(t.kids[i]) { KidsApart(t, i, j); }
  }

  lemma AroundLinked(t: Tree, i: nat)
    requires Separate(t) && i < |t.kids|
    ensures Linked(t) <==> Around(t, i) && Linked(t.kids[i])
  {
    hide Separate, DoublyLinked;
  }

  ghost function Put(t: Tree, i: nat, u: Tree): Tree
    requires i < |t.kids|
  {
    Tree(t.node, t.kids[i := u])
  }

  // The same node with the same nodes below it, perhaps in another arrangement.
  ghost predicate Rearranged(t: Tree, u: Tree) {
    u.node == t.node && Nodes(u) == Nodes(t) && Separate(u)
  }

  lemma PutKid(t: Tree, i: nat, u: Tree)
    requires Separate(t) && i < |t.kids| && Rearranged(t.kids[i], u)
    ensures Rearranged(t, Put(t, i, u)) && Tops(Put(t, i, u).kids) == Tops(t.kids)
  {
    hide Under, Nodes, Separate;
    var ks, us := t.kids, t.kids[i := u];
    SameNodes(ks, us);
    NodesAgain(t, Tree(t.node, us));
    SeparateParts(t);
    forall a, b | 0 <= a < b < |us| ensures Nodes(us[a]) !! Nodes(us[b]) { KidsApart(t, a, b); }
    FromParts(Tree(t.node, us));
  }

  lemma SameNodes(ks: seq<Tree>, us: seq<Tree>)
    requires |us| == |ks| && forall j :: 0 <= j < |ks| ==> Nodes(us[j]) == Nodes(ks[j])
    ensures Under(us) == Under(ks)
  {
    hide Nodes;
    if ks != [] { SameNodes(ks[1..], us[1..]); }
  }

  lemma AroundPut(t: Tree, i: nat, u: Tree)
    requires Separate(t) && i < |t.kids| && Rearranged(t.kids[i], u)
    ensures Separate(Put(t, i, u)) && (Around(Put(t, i, u), i) <==> Around(t, i))
  {
    hide Separate, Linked, Nodes, Under;
    PutKid(t, i, u);
    var v := Put(t, i, u);
    assert forall j :: 0 <= j < |t.kids| && j != i ==> v.kids[j] == t.kids[j];
  }

  // ---- compare_json ----

  // Tidy and meaning the same in a mode, if the other is tidy in it.
  ghost predicate Same(t: Tree, u: Tree, c: bool) {
    TidyTree(t, c) ==> TidyTree(u, c) && MeaningOf(u, c) == MeaningOf(t, c)
  }

  // The same node, rearranged below, meaning the same; not only in the mode at hand.
  ghost predicate Kept(t: Tree, u: Tree, cs: bool) {
    && Rearranged(t, u) && MeaningOf(u, cs) == MeaningOf(t, cs) && TidyTree(u, cs)
    && forall c :: Same(t, u, c)
  }

  // The same children in the same places, each kept.
  ghost predicate Alike(t: Tree, u: Tree, cs: bool) {
    && Rearranged(t, u) && Tops(u.kids) == Tops(t.kids)
    && (forall k :: 0 <= k < |t.kids|
          ==> MeaningOf(u.kids[k], cs) == MeaningOf(t.kids[k], cs) && TidyTree(u.kids[k], cs))
    && forall k, c :: 0 <= k < |t.kids| ==> Same(t.kids[k], u.kids[k], c)
  }

  lemma AlikeSelf(t: Tree, cs: bool)
    requires Separate(t) && (t.node.value.Array? || t.node.value.Object?) && TidyTree(t, cs)
    ensures Alike(t, t, cs)
  {
    hide Separate, Meaning;
    TidyKids(t, cs);
  }

  lemma TidyKids(t: Tree, cs: bool)
    requires (t.node.value.Array? || t.node.value.Object?) && TidyTree(t, cs)
    ensures forall k :: 0 <= k < |t.kids| ==> TidyTree(t.kids[k], cs)
  {
    if t.node.value.Array? {
      assert forall k :: 0 <= k < |t.kids| ==> ItemsOf(t.kids, cs)[k] == JsonOf(t.kids[k], cs);
    } else {
      assert forall k :: 0 <= k < |t.kids| ==> PairsOf(t.kids, cs)[k].value == JsonOf(t.kids[k], cs);
    }
  }

  // Children that mean the same make values that mean the same.
  lemma AlikeMeans(t: Tree, u: Tree, cs: bool)
    requires Alike(t, u, cs) && TidyTree(t, cs) && (t.node.value.Array? || t.node.value.Object?)
    ensures Kept(t, u, cs)
  {
    hide Nodes, Separate;
    forall c ensures Same(t, u, c) {
      if TidyTree(t, c) {
        TidyKids(t, c);
        AllSame(t, u, c, cs);
        AlikeIn(t, u, c);
      }
    }
    assert Same(t, u, cs);
  }

  // A child that is the same makes the parent the same.
  lemma PutSame(t: Tree, i: nat, u: Tree, c: bool)
    requires i < |t.kids| && u.node == t.kids[i].node && Same(t.kids[i], u, c)
    ensures Same(t, Put(t, i, u), c)
  {
    var v := Put(t, i, u);
    if TidyTree(t, c) && (t.node.value.Array? || t.node.value.Object?) {
      TidyKids(t, c);
      hide TidyTree, MeaningOf;
      assert forall k :: 0 <= k < |t.kids| ==> v.kids[k] == if k == i then u else t.kids[k];
      assert Tops(v.kids) == Tops(t.kids);
      AlikeIn(t, v, c);
    }
  }

  lemma AllSame(t: Tree, u: Tree, c: bool, cs: bool)
    requires Alike(t, u, cs) && |u.kids| == |t.kids| && forall k :: 0 <= k < |t.kids| ==> TidyTree(t.kids[k], c)
    ensures forall k :: 0 <= k < |t.kids|
              ==> MeaningOf(u.kids[k], c) == MeaningOf(t.kids[k], c) && TidyTree(u.kids[k], c)
  {
    hide Rearranged, MeaningOf, TidyTree;
    forall k | 0 <= k < |t.kids| ensures MeaningOf(u.kids[k], c) == MeaningOf(t.kids[k], c) && TidyTree(u.kids[k], c) {
      assert Same(t.kids[k], u.kids[k], c);
    }
  }

  lemma AlikeIn(t: Tree, u: Tree, cs: bool)
    requires u.node == t.node && Tops(u.kids) == Tops(t.kids) && |u.kids| == |t.kids|
    requires forall k :: 0 <= k < |t.kids|
               ==> MeaningOf(u.kids[k], cs) == MeaningOf(t.kids[k], cs) && TidyTree(u.kids[k], cs)
    requires TidyTree(t, cs) && (t.node.value.Array? || t.node.value.Object?)
    ensures TidyTree(u, cs) && MeaningOf(u, cs) == MeaningOf(t, cs)
  {
    hide Tidy, Meaning;
    if t.node.value.Array? { AlikeItems(t.kids, u.kids, cs); } else { AlikePairs(t.kids, u.kids, cs); }
  }

  lemma AlikeItems(ks: seq<Tree>, us: seq<Tree>, cs: bool)
    requires |us| == |ks|
    requires forall k :: 0 <= k < |ks| ==> MeaningOf(us[k], cs) == MeaningOf(ks[k], cs) && TidyTree(us[k], cs)
    ensures Meaning(Array(ItemsOf(us, cs))) == Meaning(Array(ItemsOf(ks, cs))) && Tidy(Array(ItemsOf(us, cs)))
  {
    hide JsonOf;
    assert forall k :: 0 <= k < |ks|
             ==> ItemsOf(us, cs)[k] == JsonOf(us[k], cs) && ItemsOf(ks, cs)[k] == JsonOf(ks[k], cs);
    var a, b := Meaning(Array(ItemsOf(us, cs))).items, Meaning(Array(ItemsOf(ks, cs))).items;
    assert forall k :: 0 <= k < |ks| ==> a[k] == b[k];
  }

  lemma AlikePairs(ks: seq<Tree>, us: seq<Tree>, cs: bool)
    requires |us| == |ks| && Tops(us) == Tops(ks) && Tidy(Object(PairsOf(ks, cs)))
    requires forall k :: 0 <= k < |ks| ==> MeaningOf(us[k], cs) == MeaningOf(ks[k], cs) && TidyTree(us[k], cs)
    ensures Meaning(Object(PairsOf(us, cs))) == Meaning(Object(PairsOf(ks, cs))) && Tidy(Object(PairsOf(us, cs)))
  {
    hide JsonOf, Meaning, Tidy;
    var a, b := PairsOf(us, cs), PairsOf(ks, cs);
    TidyObject(b);
    TidyObject(a);
    forall k | 0 <= k < |ks|
      ensures a[k].key == b[k].key && a[k].value == JsonOf(us[k], cs) && b[k].value == JsonOf(ks[k], cs)
    {
      assert Tops(us)[k] == Tops(ks)[k];
    }
    assert KeySet(a) == KeySet(b) by {
      forall k | 0 <= k < |a| ensures a[k].key in KeySet(b) && b[k].key in KeySet(a) { assert a[k].key == b[k].key; }
    }
    SameFields(a, b);
    MeaningObject(a);
    MeaningObject(b);
  }

  // A child kept keeps the tree alike.
  lemma PutAlike(s: Tree, t: Tree, i: nat, u: Tree, cs: bool)
    requires Alike(s, t, cs) && Separate(t) && i < |t.kids| && Kept(t.kids[i], u, cs)
    ensures Alike(s, Put(t, i, u), cs)
  {
    hide Separate, TidyTree, MeaningOf, JsonOf, Nodes, Same;
    PutKid(t, i, u);
    var v := Put(t, i, u);
    assert |t.kids| == |s.kids| by { assert |Tops(t.kids)| == |Tops(s.kids)|; }
    assert forall k :: 0 <= k < |t.kids| ==> v.kids[k] == if k == i then u else t.kids[k];
    forall k, c | 0 <= k < |s.kids| ensures Same(s.kids[k], v.kids[k], c) {
      assert Same(s.kids[k], t.kids[k], c);
      if k == i { SameTwice(s.kids[i], t.kids[i], u, c); }
    }
  }

  lemma SameTwice(t: Tree, u: Tree, v: Tree, c: bool)
    requires Same(t, u, c) && Same(u, v, c)
    ensures Same(t, v, c)
  {
    hide TidyTree, MeaningOf;
  }

  // The recursive call for a child of each side.
  method CompareKid(x: Item, y: Item, cs: bool, ghost i: nat, ghost j: nat, ghost ta: Tree, ghost tb: Tree)
    returns (r: bool, ghost ua: Tree, ghost ub: Tree)
    requires Linked(ta) && Linked(tb) && Separate(ta) && Separate(tb) && Nodes(ta) !! Nodes(tb)
    requires i < |ta.kids| && j < |tb.kids| && x == ta.kids[i].node && y == tb.kids[j].node
    requires TidyTree(ta.kids[i], cs) && TidyTree(tb.kids[j], cs)
    modifies Nodes(ta)`child, Nodes(tb)`child, Under(ta.kids)`next, Under(ta.kids)`prev, Under(tb.kids)`next,
             Under(tb.kids)`prev
    ensures r <==> MeaningOf(ta.kids[i], cs) == MeaningOf(tb.kids[j], cs)
    ensures Kept(ta.kids[i], ua, cs) && Separate(Put(ta, i, ua)) && Linked(Put(ta, i, ua))
    ensures Kept(tb.kids[j], ub, cs) && Separate(Put(tb, j, ub)) && Linked(Put(tb, j, ub))
    decreases ta.kids[i], 2
  {
    hide Linked, Separate, Nodes, Under, TidyTree, MeaningOf, JsonOf, Around;
    AroundLinked(ta, i);
    AroundLinked(tb, j);
    OutsideKid(ta, i);
    OutsideKid(tb, j);
    KidInside(ta, i);
    KidInside(tb, j);
    NodesExist(ta); UnderExist(ta.kids); NodesExist(tb); UnderExist(tb.kids);
    r, ua, ub := CompareTrees(x, y, cs, ta.kids[i], tb.kids[j]);
    assert Around(ta, i);
    assert Around(tb, j);
    AroundPut(ta, i, ua);
    AroundPut(tb, j, ub);
    AroundLinked(Put(ta, i, ua), i);
    AroundLinked(Put(tb, j, ub), j);
  }

  lemma KidInside(t: Tree, i: nat)
    requires Separate(t) && i < |t.kids|
    ensures Nodes(t.kids[i]) <= Nodes(t) && Under(t.kids[i].kids) <= Under(t.kids) <= Nodes(t) && Separate(t.kids[i])
    ensures Under(t.kids[i].kids) <= Nodes(t.kids[i])
  {
    hide Under;
    KidsUnder(t.kids);
  }

  // compare_json: true exactly when the two trees mean the same; the objects visited are
  // left sorted, which changes no meaning.
  method CompareTrees(a: Item, b: Item, cs: bool, ghost ta: Tree, ghost tb: Tree)
    returns (r: bool, ghost ua: Tree, ghost ub: Tree)
    requires ta.node == a && tb.node == b && Linked(ta) && Linked(tb) && Separate(ta) && Separate(tb)
    requires Nodes(ta) !! Nodes(tb)
    requires TidyTree(ta, cs) && TidyTree(tb, cs)
    modifies Nodes(ta)`child, Nodes(tb)`child, Under(ta.kids)`next, Under(ta.kids)`prev, Under(tb.kids)`next,
             Under(tb.kids)`prev
    ensures r <==> MeaningOf(ta, cs) == MeaningOf(tb, cs)
    ensures Kept(ta, ua, cs) && Kept(tb, ub, cs) && Linked(ua) && Linked(ub)
    decreases ta, 1
  {
    hide Linked, Separate, Nodes, Under, MeaningOf, TidyTree, JsonOf;
    TreesDiffer(ta, tb, cs);
    KeptItself(ta, cs);
    KeptItself(tb, cs);
    ua, ub := ta, tb;
    match (a.value, b.value) {
      case (Number(m), Number(n)) => r := m == n;
      case (String(s), String(t)) => r := s == t;
      case (Array(_), Array(_)) => r, ua, ub := CompareArrays(a, b, cs, ta, tb);
      case (Object(_), Object(_)) => r, ua, ub := CompareObjects(a, b, cs, ta, tb);
      case (Null, Null) => r := true;
      case (Invalid, Invalid) => r := true;
      case (Bool(x), Bool(y)) => r := x == y;
      case _ => r := false;
    }
  }

  // Trees of different types, or of scalars, mean the same exactly when their nodes hold
  // the same.
  lemma TreesDiffer(ta: Tree, tb: Tree, cs: bool)
    ensures !(ta.node.value.Array? && tb.node.value.Array?) && !(ta.node.value.Object? && tb.node.value.Object?)
            ==> (MeaningOf(ta, cs) == MeaningOf(tb, cs)
                 <==> ta.node.value == tb.node.value && !ta.node.value.Array? && !ta.node.value.Object?)
  {
    hide ItemsOf, PairsOf;
  }

  lemma KeptItself(t: Tree, cs: bool)
    requires Separate(t) && TidyTree(t, cs)
    ensures Kept(t, t, cs)
  {
    hide Separate, TidyTree, MeaningOf, Nodes;
  }

  // Two lists of children walked side by side, up to position i.
  ghost predicate Walking(s: Tree, t: Tree, i: nat, x: Item?, cs: bool)
    reads Nodes(t)`child, Under(t.kids)`next, Under(t.kids)`prev
  {
    && Linked(t) && Separate(t) && Separate(s) && Alike(s, t, cs) && i <= |s.kids|
    && x == (if i < |t.kids| then t.kids[i].node else null)
    && forall k :: i <= k < |s.kids| ==> t.kids[k] == s.kids[k]
  }

  lemma WalkStarts(t: Tree, x: Item?, cs: bool)
    requires Linked(t) && Separate(t) && (t.node.value.Array? || t.node.value.Object?) && TidyTree(t, cs)
    requires x == t.node.child
    ensures Walking(t, t, 0, x, cs)
  {
    hide Separate, Tidy, JsonOf;
    AlikeSelf(t, cs);
  }

  // From one child to the next.
  lemma WalkOn(s: Tree, t: Tree, i: nat, u: Tree, cs: bool)
    requires Alike(s, t, cs) && Separate(s) && Separate(t) && i < |t.kids| && i < |s.kids| && Kept(t.kids[i], u, cs)
    requires Linked(Put(t, i, u)) && Separate(Put(t, i, u)) && forall k :: i <= k < |s.kids| ==> t.kids[k] == s.kids[k]
    ensures t.kids[i].node == u.node && Walking(s, Put(t, i, u), i + 1, u.node.next, cs)
  {
    hide Separate, Tidy, Meaning, JsonOf, Nodes, Under;
    PutAlike(s, t, i, u, cs);
    var v := Put(t, i, u);
    assert v.kids[i] == u && Tops(v.kids)[i] == u.node;
    NextOf(Tops(v.kids), i);
  }

  // Both walks one step on: the children compared, and what their trees have become.
  method CompareStep(x: Item, y: Item, cs: bool, ghost i: nat, ghost sa: Tree, ghost sb: Tree, ghost ta: Tree,
                     ghost tb: Tree)
    returns (r: bool, ghost ua: Tree, ghost ub: Tree)
    requires Walking(sa, ta, i, x, cs) && Walking(sb, tb, i, y, cs) && i < |sa.kids| && i < |sb.kids|
    requires Nodes(sa) !! Nodes(sb)
    modifies Nodes(ta)`child, Nodes(tb)`child, Under(ta.kids)`next, Under(ta.kids)`prev, Under(tb.kids)`next,
             Under(tb.kids)`prev
    ensures r <==> MeaningOf(sa.kids[i], cs) == MeaningOf(sb.kids[i], cs)
    ensures Walking(sa, ua, i + 1, x.next, cs) && Walking(sb, ub, i + 1, y.next, cs)
    decreases sa.kids[i], 3
  {
    hide Linked, Separate, Nodes, Under, TidyTree, MeaningOf, JsonOf;
    ghost var u, v;
    r, u, v := CompareKid(x, y, cs, i, i, ta, tb);
    WalkOn(sa, ta, i, u, cs);
    WalkOn(sb, tb, i, v, cs);
    ua, ub := Put(ta, i, u), Put(tb, i, v);
  }

  lemma WalkEnds(s: Tree, t: Tree, i: nat, x: Item?, cs: bool)
    requires Walking(s, t, i, x, cs) && (s.node.value.Array? || s.node.value.Object?) && TidyTree(s, cs)
    ensures Linked(t) && Kept(s, t, cs) && |t.kids| == |s.kids| && Nodes(t) == Nodes(s)
    ensures Under(t.kids) == Under(s.kids)
    ensures x == null <==> i == |s.kids|
  {
    hide Linked, Separate, Tidy, Meaning, JsonOf;
    AlikeMeans(s, t, cs);
    UnderAgain(s, t);
  }

  lemma UnderAgain(s: Tree, t: Tree)
    requires t.node == s.node && Nodes(t) == Nodes(s) && Separate(s) && Separate(t)
    ensures Under(t.kids) == Under(s.kids)
  {
    assert Under(t.kids) == Nodes(t) - {t.node};
    assert Under(s.kids) == Nodes(s) - {s.node};
  }

  method CompareArrays(a: Item, b: Item, cs: bool, ghost ta: Tree, ghost tb: Tree)
    returns (r: bool, ghost ua: Tree, ghost ub: Tree)
    requires ta.node == a && tb.node == b && Linked(ta) && Linked(tb) && Separate(ta) && Separate(tb)
    requires Nodes(ta) !! Nodes(tb)
    requires TidyTree(ta, cs) && TidyTree(tb, cs) && a.value.Array? && b.value.Array?
    modifies Nodes(ta)`child, Nodes(tb)`child, Under(ta.kids)`next, Under(ta.kids)`prev, Under(tb.kids)`next,
             Under(tb.kids)`prev
    ensures r <==> MeaningOf(ta, cs) == MeaningOf(tb, cs)
    ensures Kept(ta, ua, cs) && Kept(tb, ub, cs) && Linked(ua) && Linked(ub)
    decreases ta, 0
  {
    hide Linked, Separate, Nodes, Under, TidyTree, MeaningOf, JsonOf, Walking, Kept;
    var x, y := a.child, b.child;
    ghost var i := 0;
    ua, ub := ta, tb;
    r := true;
    WalkStarts(ta, x, cs);
    WalkStarts(tb, y, cs);
    ItemsMean(ta, cs);
    ItemsMean(tb, cs);
    WalkEnds(ta, ua, i, x, cs);
    WalkEnds(tb, ub, i, y, cs);
    while x != null && y != null
      invariant Walking(ta, ua, i, x, cs) && Walking(tb, ub, i, y, cs) && i <= |ta.kids| && i <= |tb.kids|
      invariant Nodes(ua) == Nodes(ta) && Nodes(ub) == Nodes(tb) && Under(ua.kids) == Under(ta.kids)
      invariant Under(ub.kids) == Under(tb.kids)
      invariant forall k :: 0 <= k < i ==> MeaningOf(ta.kids[k], cs) == MeaningOf(tb.kids[k], cs)
      invariant x == null <==> i == |ta.kids|
      invariant y == null <==> i == |tb.kids|
      decreases |ta.kids| - i
    {
      r, ua, ub := CompareStep(x, y, cs, i, ta, tb, ua, ub);
      x, y := x.next, y.next;
      i := i + 1;
      WalkEnds(ta, ua, i, x, cs);
      WalkEnds(tb, ub, i, y, cs);
      if !r {
        return;
      }
    }
    WalkEnds(ta, ua, i, x, cs);
    WalkEnds(tb, ub, i, y, cs);
    r := x == null && y == null;
  }

  lemma ItemsMean(t: Tree, cs: bool)
    requires t.node.value.Array?
    ensures MeaningOf(t, cs).VArray? && |MeaningOf(t, cs).items| == |t.kids|
    ensures forall k :: 0 <= k < |t.kids| ==> MeaningOf(t, cs).items[k] == MeaningOf(t.kids[k], cs)
  {
    assert forall k :: 0 <= k < |t.kids| ==> ItemsOf(t.kids, cs)[k] == JsonOf(t.kids[k], cs);
  }

  // Children of an object in another order.
  lemma ShuffledSame(t: Tree, u: Tree, c: bool)
    requires u.node == t.node && t.node.value.Object? && multiset(u.kids) == multiset(t.kids)
    ensures Same(t, u, c)
    ensures JsonOf(u, c) == Object(PairsOf(u.kids, c)) && JsonOf(t, c) == Object(PairsOf(t.kids, c))
    ensures TidyTree(t, c) ==> TidyMembers(PairsOf(u.kids, c))
  {
    hide Meaning, Tidy;
    var p, q := PairsOf(t.kids, c), PairsOf(u.kids, c);
    PairsShuffled(u.kids, t.kids, c);
    TidyObject(p);
    TidyObject(q);
    MeaningObject(p);
    MeaningObject(q);
    if TidyMembers(p) { Reordered(p, q); }
  }

  // Sorting the children of an object keeps it, and its members then ascend.
  lemma SortedKept(t: Tree, u: Tree, cs: bool)
    requires u.node == t.node && t.node.value.Object? && Nodes(u) == Nodes(t) && Separate(u)
    requires multiset(u.kids) == multiset(t.kids)
    requires TidyTree(t, cs) && Ordered(Keys(Tops(u.kids)), cs)
    ensures Kept(t, u, cs) && JsonOf(u, cs) == Object(PairsOf(u.kids, cs))
    ensures JsonOf(t, cs) == Object(PairsOf(t.kids, cs))
    ensures TidyMembers(PairsOf(u.kids, cs)) && Ascending(PairsOf(u.kids, cs))
    ensures forall k :: 0 <= k < |u.kids| ==> u.kids[k] in t.kids
  {
    hide Separate, Nodes, MeaningOf, TidyTree, CompareStrings, JsonOf;
    forall c ensures Same(t, u, c) { ShuffledSame(t, u, c); }
    ShuffledSame(t, u, cs);
    SameElements(t.kids, u.kids);
    KeysOrdered(u.kids, cs);
    Ascends(PairsOf(u.kids, cs));
  }

  lemma KeysOrdered(us: seq<Tree>, cs: bool)
    requires Ordered(Keys(Tops(us)), cs)
    ensures InKeyOrder(PairsOf(us, cs))
  {
    hide JsonOf, StrCmp;
    var ks := Keys(Tops(us));
    assert forall i :: 0 <= i < |us| ==> ks[i] == us[i].node.key;
    forall i, j | 0 <= i < j < |us| ensures StrCmp(PairsOf(us, cs)[i].key, PairsOf(us, cs)[j].key) <= 0 {
      assert CompareStrings(ks[i], ks[j], cs) <= 0;
    }
  }

  lemma KeptTwice(t: Tree, u: Tree, v: Tree, cs: bool)
    requires Kept(t, u, cs) && Kept(u, v, cs)
    ensures Kept(t, v, cs)
  {
    hide Nodes, Separate, TidyTree, MeaningOf, Same;
    forall c ensures Same(t, v, c) { SameTwice(t, u, v, c); }
  }

  // sort_object on both sides of a comparison.
  method SortBoth(a: Item, b: Item, cs: bool, ghost ta: Tree, ghost tb: Tree) returns (ghost sa: Tree, ghost sb: Tree)
    requires ta.node == a && tb.node == b && Linked(ta) && Linked(tb) && Separate(ta) && Separate(tb)
    requires Nodes(ta) !! Nodes(tb)
    requires TidyTree(ta, cs) && TidyTree(tb, cs) && a.value.Object? && b.value.Object?
    modifies Nodes(ta)`child, Nodes(tb)`child, Under(ta.kids)`next, Under(ta.kids)`prev, Under(tb.kids)`next,
             Under(tb.kids)`prev
    ensures Linked(sa) && Kept(ta, sa, cs) && Linked(sb) && Kept(tb, sb, cs)
    ensures JsonOf(sa, cs) == Object(PairsOf(sa.kids, cs)) && TidyMembers(PairsOf(sa.kids, cs))
    ensures Ascending(PairsOf(sa.kids, cs))
    ensures JsonOf(sb, cs) == Object(PairsOf(sb.kids, cs)) && TidyMembers(PairsOf(sb.kids, cs))
    ensures Ascending(PairsOf(sb.kids, cs))
    ensures forall k :: 0 <= k < |sa.kids| ==> sa.kids[k] in ta.kids
  {
    hide Linked, Separate, Nodes, Under, TidyTree, MeaningOf, JsonOf, Ordered, Keys;
    TopsInside(ta);
    TopsInside(tb);
    NodesExist(ta); UnderExist(ta.kids); NodesExist(tb); UnderExist(tb.kids);
    sa := SortHere(a, cs, ta);
    assert Linked(tb);
    UnderAgain(ta, sa);
    NodesExist(sa); UnderExist(sa.kids);
    sb := SortHere(b, cs, tb);
    assert Linked(sa);
    SortedKept(ta, sa, cs);
    SortedKept(tb, sb, cs);
  }

  lemma TopsInside(t: Tree)
    ensures t.node in Nodes(t) && Under(t.kids) <= Nodes(t)
    ensures forall x :: x in Tops(t.kids) ==> x in Under(t.kids)
  {
    hide Under;
    KidsUnder(t.kids);
  }

  method CompareObjects(a: Item, b: Item, cs: bool, ghost ta: Tree, ghost tb: Tree)
    returns (r: bool, ghost ua: Tree, ghost ub: Tree)
    requires ta.node == a && tb.node == b && Linked(ta) && Linked(tb) && Separate(ta) && Separate(tb)
    requires Nodes(ta) !! Nodes(tb)
    requires TidyTree(ta, cs) && TidyTree(tb, cs) && a.value.Object? && b.value.Object?
    modifies Nodes(ta)`child, Nodes(tb)`child, Under(ta.kids)`next, Under(ta.kids)`prev, Under(tb.kids)`next,
             Under(tb.kids)`prev
    ensures r <==> MeaningOf(ta, cs) == MeaningOf(tb, cs)
    ensures Kept(ta, ua, cs) && Kept(tb, ub, cs) && Linked(ua) && Linked(ub)
    decreases ta, 0
  {
    hide Linked, Separate, Nodes, Under, Tidy, Meaning, JsonOf, Walking, Ascending, TidyMembers, CompareStrings,
         StrCmp, Fold;
    ghost var sa, sb := SortBoth(a, b, cs, ta, tb);
    ghost var p, q := PairsOf(sa.kids, cs), PairsOf(sb.kids, cs);
    Insides(ta, sa);
    Insides(tb, sb);
    var x, y := a.child, b.child;
    ghost var i := 0;
    ua, ub := sa, sb;
    WalkStarts(sa, x, cs);
    WalkStarts(sb, y, cs);
    MeaningObject(p);
    MeaningObject(q);
    MembersTidy(p);
    MembersTidy(q);
    WalkEnds(sa, ua, i, x, cs);
    WalkEnds(sb, ub, i, y, cs);
    r := true;
    while x != null && y != null
      invariant Walking(sa, ua, i, x, cs) && Walking(sb, ub, i, y, cs) && i <= |sa.kids| && i <= |sb.kids|
      invariant AgreeTo(p, q, i)
      invariant Nodes(ua) == Nodes(ta) && Nodes(ub) == Nodes(tb) && Under(ua.kids) == Under(ta.kids)
      invariant Under(ub.kids) == Under(tb.kids)
      invariant Kept(sa, ua, cs) && Kept(sb, ub, cs) && Linked(ua) && Linked(ub)
      invariant x == null <==> i == |sa.kids|
      invariant y == null <==> i == |sb.kids|
      decreases |sa.kids| - i
    {
      WalkKey(sa, ua, i, x, cs);
      WalkKey(sb, ub, i, y, cs);
      KeyCompare(x.key, y.key, cs);
      if CompareStrings(x.key, y.key, cs) != 0 {
        PartAt(p, q, i);
        KeptTwice(ta, sa, ua, cs);
        KeptTwice(tb, sb, ub, cs);
        return false, ua, ub;
      }
      r, ua, ub := CompareStep(x, y, cs, i, sa, sb, ua, ub);
      x, y := x.next, y.next;
      WalkEnds(sa, ua, i + 1, x, cs);
      WalkEnds(sb, ub, i + 1, y, cs);
      if !r {
        DifferAt(p, q, i);
        KeptTwice(ta, sa, ua, cs);
        KeptTwice(tb, sb, ub, cs);
        return;
      }
      i := i + 1;
    }
    KeptTwice(ta, sa, ua, cs);
    KeptTwice(tb, sb, ub, cs);
    if x != null || y != null { PartAt(p, q, i); } else { AgreeAll(p, q); }
    r := x == null && y == null;
  }

  lemma Insides(t: Tree, s: Tree)
    requires Separate(t) && Separate(s) && s.node == t.node && Nodes(s) == Nodes(t)
    ensures Under(s.kids) == Under(t.kids)
  {
    UnderAgain(t, s);
  }

  lemma MembersTidy(p: seq<Member>)
    requires TidyMembers(p)
    ensures DistinctKeys(p) && Tidy(Object(p))
  {
  }

  // The key and the value of the current child of a walk.
  lemma WalkKey(s: Tree, t: Tree, i: nat, x: Item?, cs: bool)
    requires Walking(s, t, i, x, cs) && i < |s.kids|
    ensures x != null && Fold(x.key, cs) == PairsOf(s.kids, cs)[i].key
    ensures PairsOf(s.kids, cs)[i].value == JsonOf(s.kids[i], cs)
  {
    hide Linked, Separate, Tidy, Meaning, JsonOf, Nodes;
  }
}
