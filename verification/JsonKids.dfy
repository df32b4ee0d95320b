// Trees of cJSON nodes taken apart, put together and copied in memory
// (component/cJSON/cJSON.c, cJSON_DetachItemFromArray, cJSON_AddItemToArray and
// cJSON_Duplicate; component/cJSON/cJSON_Utils.c, insert_item_in_array).
module JsonKids {
  import opened JsonValues
  import opened JsonSort
  import opened JsonList
  import opened JsonTrees

  // A tree in memory on its own.
  ghost predicate Stands(t: Tree)
    reads Nodes(t)`child, Under(t.kids)`next, Under(t.kids)`prev
  {
    Linked(t) && Separate(t)
  }

  lemma LinkedParts(t: Tree)
    ensures Linked(t)
            <==> DoublyLinked(Tops(t.kids), t.node.child) && forall i :: 0 <= i < |t.kids| ==> Linked(t.kids[i])
  {
  }

  // A node on no list.
  ghost predicate Unlinked(x: Item)
    reads x`next, x`prev
  {
    x.next == null && x.prev == null
  }

  // ---- Taking a child out ----

  ghost function Pruned(t: Tree, i: nat): Tree
    requires i < |t.kids|
  {
    Tree(t.node, t.kids[..i] + t.kids[i + 1..])
  }

  // Which child of the old list stands at a place of the new one.
  function CutFrom(i: nat, j: nat): nat {
    if j < i then j else j + 1
  }

  lemma CutUnder(t: Tree, i: nat)
    requires Separate(t) && i < |t.kids|
    ensures Under(Pruned(t, i).kids) == Under(t.kids) - Nodes(t.kids[i])
  {
    hide Separate, Nodes, Under;
    var us := Pruned(t, i).kids;
    forall x | x in Under(us) ensures x in Under(t.kids) && x !in Nodes(t.kids[i]) {
      InUnder(us, x);
      InUnder(t.kids, x);
      var j :| 0 <= j < |us| && x in Nodes(us[j]);
      KidsApart(t, i, CutFrom(i, j));
    }
    forall x | x in Under(t.kids) && x !in Nodes(t.kids[i]) ensures x in Under(us) {
      InUnder(us, x);
      InUnder(t.kids, x);
      var k :| 0 <= k < |t.kids| && x in Nodes(t.kids[k]);
      assert us[if k < i then k else k - 1] == t.kids[k];
    }
  }

  lemma CutNodes(t: Tree, i: nat)
    requires Separate(t) && i < |t.kids|
    ensures Separate(Pruned(t, i)) && Separate(t.kids[i])
    ensures Nodes(Pruned(t, i)) == Nodes(t) - Nodes(t.kids[i])
    ensures Under(Pruned(t, i).kids) == Under(t.kids) - Nodes(t.kids[i])
    ensures Tops(Pruned(t, i).kids) == Tops(t.kids)[..i] + Tops(t.kids)[i + 1..]
  {
    hide Separate, Nodes, Under;
    var us := Pruned(t, i).kids;
    SeparateParts(t);
    OwnNodes(t);
    OwnNodes(Pruned(t, i));
    CutUnder(t, i);
    KidsUnder(t.kids);
    forall a, b | 0 <= a < b < |us| ensures Nodes(us[a]) !! Nodes(us[b]) { KidsApart(t, CutFrom(i, a), CutFrom(i, b)); }
    FromParts(Pruned(t, i));
  }

  lemma OwnNodes(t: Tree)
    ensures Nodes(t) == {t.node} + Under(t.kids)
  {
  }

  // The child list closed up, everything below the children staying in place.
  method DetachTop(owner: Item, which: nat, ghost ks: seq<Tree>) returns (c: Item?)
    requires DoublyLinked(Tops(ks), owner.child) && forall i :: 0 <= i < |ks| ==> Linked(ks[i])
    requires forall i :: 0 <= i < |ks| ==> owner !in Nodes(ks[i])
    requires forall i, x :: 0 <= i < |ks| && x in Under(ks[i].kids) ==> x !in Tops(ks)
    modifies owner`child, Tops(ks)`next, Tops(ks)`prev
    ensures c == null <==> which >= |ks|
    ensures c == null ==> DoublyLinked(Tops(ks), owner.child)
    ensures c != null
            ==> c == ks[which].node && Unlinked(c)
                && DoublyLinked(Tops(ks)[..which] + Tops(ks)[which + 1..], owner.child)
    ensures forall i :: 0 <= i < |ks| ==> Linked(ks[i])
  {
    hide Nodes, Under, Linked, DoublyLinked;
    KidsExist(ks);
    c := Detach(owner, which, Tops(ks));
    forall i | 0 <= i < |ks| ensures Linked(ks[i]) {
      assert forall x :: x in Under(ks[i].kids) ==> x !in Tops(ks);
      assert forall x :: x in Under(ks[i].kids) ==> old(allocated(x));
      assert forall x :: x in Nodes(ks[i]) ==> old(allocated(x));
      assert old(allocated(ks[i]));
      assert old(Linked(ks[i]));
    }
  }

  // The child at an index leaves with everything below it.
  method DetachKid(owner: Item, which: nat, ghost t: Tree) returns (c: Item?)
    requires t.node == owner && Stands(t)
    modifies owner`child, Tops(t.kids)`next, Tops(t.kids)`prev
    ensures c == null <==> which >= |t.kids|
    ensures c == null ==> Stands(t)
    ensures c != null ==> c == t.kids[which].node && Unlinked(c) && Stands(t.kids[which]) && Stands(Pruned(t, which))
  {
    hide Separate, Nodes, Under, Linked, DoublyLinked;
    LinkedParts(t);
    AllDeepApart(t);
    c := DetachTop(owner, which, t.kids);
    LinkedParts(t);
    if c != null {
      CutNodes(t, which);
      LinkedParts(Pruned(t, which));
    }
  }

  // ---- Putting a child in ----

  ghost function Grown(t: Tree, i: nat, v: Tree): Tree
    requires i <= |t.kids|
  {
    Tree(t.node, t.kids[..i] + [v] + t.kids[i..])
  }

  lemma GrownUnder(t: Tree, i: nat, v: Tree)
    requires i <= |t.kids|
    ensures Under(Grown(t, i, v).kids) == Under(t.kids) + Nodes(v)
  {
    hide Nodes, Under;
    var us := Grown(t, i, v).kids;
    forall x | x in Under(us) ensures x in Under(t.kids) + Nodes(v) {
      InUnder(us, x);
      InUnder(t.kids, x);
      var j :| 0 <= j < |us| && x in Nodes(us[j]);
      assert us[j] == if j < i then t.kids[j] else if j == i then v else t.kids[j - 1];
    }
    forall x | x in Under(t.kids) + Nodes(v) ensures x in Under(us) {
      InUnder(us, x);
      InUnder(t.kids, x);
      if x in Nodes(v) {
        assert us[i] == v;
      } else {
        var k :| 0 <= k < |t.kids| && x in Nodes(t.kids[k]);
        assert us[if k < i then k else k + 1] == t.kids[k];
      }
    }
  }

  lemma GrownNodes(t: Tree, i: nat, v: Tree)
    requires Separate(t) && i <= |t.kids| && Separate(v) && Nodes(v) !! Nodes(t)
    ensures Separate(Grown(t, i, v))
    ensures Nodes(Grown(t, i, v)) == Nodes(t) + Nodes(v) && Under(Grown(t, i, v).kids) == Under(t.kids) + Nodes(v)
    ensures Tops(Grown(t, i, v).kids) == Tops(t.kids)[..i] + [v.node] + Tops(t.kids)[i..]
  {
    hide Separate, Nodes, Under;
    var us := Grown(t, i, v).kids;
    SeparateParts(t);
    OwnNodes(t);
    OwnNodes(Grown(t, i, v));
    GrownUnder(t, i, v);
    KidsUnder(t.kids);
    forall a, b | 0 <= a < b < |us| ensures Nodes(us[a]) !! Nodes(us[b]) {
      if a != i && b != i { KidsApart(t, if a < i then a else a - 1, if b < i then b else b - 1); }
    }
    FromParts(Grown(t, i, v));
  }

  // The nodes of a new child are none of those around it.
  lemma Strangers(t: Tree, v: Tree)
    requires Separate(t) && Separate(v) && Nodes(v) !! Nodes(t)
    ensures t.node !in Nodes(v) && v.node !in Tops(t.kids)
    ensures forall x :: x in Under(v.kids) ==> x !in Tops(t.kids) && x != v.node
    ensures forall i :: 0 <= i < |t.kids| ==> v.node !in Under(t.kids[i].kids)
  {
    hide Under;
    KidsUnder(t.kids);
    OwnNodes(t);
    OwnNodes(v);
    forall i | 0 <= i < |t.kids| ensures v.node !in Under(t.kids[i].kids) { OwnNodes(t.kids[i]); }
  }

  // cJSON_AddItemToArray: a tree becomes the last child.
  method AddKid(owner: Item, x: Item, ghost t: Tree, ghost v: Tree)
    requires t.node == owner && v.node == x && Stands(t) && Stands(v) && Unlinked(x) && Nodes(v) !! Nodes(t)
    modifies owner`child, x`prev, Tops(t.kids)`next
    ensures Stands(Grown(t, |t.kids|, v))
  {
    hide Separate, Nodes, Under, Linked, DoublyLinked;
    LinkedParts(t);
    AllDeepApart(t);
    KidsExist(t.kids);
    Strangers(t, v);
    NodesExist(v);
    UnderExist(v.kids);
    ghost var ks := t.kids;
    AddItem(owner, x, Tops(ks));
    forall i | 0 <= i < |ks| ensures Linked(ks[i]) {
      assert forall x :: x in Under(ks[i].kids) ==> old(allocated(x)) && x !in Tops(ks);
      assert owner !in Nodes(ks[i]) && forall x :: x in Nodes(ks[i]) ==> old(allocated(x));
      assert old(allocated(ks[i])) && old(Linked(ks[i]));
    }
    assert old(allocated(v)) && old(Linked(v));
    GrownNodes(t, |ks|, v);
    assert Tops(Grown(t, |ks|, v).kids) == Tops(ks) + [x];
    LinkedParts(Grown(t, |ks|, v));
  }

  // insert_item_in_array: a tree becomes a child at an index.
  method InsertKid(owner: Item, which: nat, x: Item, ghost t: Tree, ghost v: Tree) returns (ok: bool)
    requires t.node == owner && v.node == x && Stands(t) && Stands(v) && Unlinked(x) && Nodes(v) !! Nodes(t)
    modifies owner`child, x`next, x`prev, Tops(t.kids)`next, Tops(t.kids)`prev
    ensures ok <==> which <= |t.kids|
    ensures ok ==> Stands(Grown(t, which, v))
    ensures !ok ==> Stands(t)
  {
    hide Separate, Nodes, Under, Linked, DoublyLinked;
    LinkedParts(t);
    AllDeepApart(t);
    KidsExist(t.kids);
    Strangers(t, v);
    NodesExist(v);
    UnderExist(v.kids);
    ghost var ks := t.kids;
    ok := Insert(owner, which, x, Tops(ks));
    forall i | 0 <= i < |ks| ensures Linked(ks[i]) {
      assert forall x :: x in Under(ks[i].kids) ==> old(allocated(x)) && x !in Tops(ks);
      assert owner !in Nodes(ks[i]) && forall x :: x in Nodes(ks[i]) ==> old(allocated(x));
      assert old(allocated(ks[i])) && old(Linked(ks[i]));
    }
    assert old(allocated(v)) && old(Linked(v));
    LinkedParts(t);
    if ok {
      GrownNodes(t, which, v);
      LinkedParts(Grown(t, which, v));
    }
  }

  // ---- cJSON_Duplicate ----

  // A child made is put behind the last one made.
  method LinkLast(owner: Item, last: Item?, x: Item, ghost t: Tree, ghost v: Tree)
    requires t.node == owner && v.node == x && Stands(t) && Stands(v) && Unlinked(x) && Nodes(v) !! Nodes(t)
    requires last == if t.kids == [] then null else t.kids[|t.kids| - 1].node
    modifies owner`child, x`prev, Under(t.kids)`next
    ensures Stands(Grown(t, |t.kids|, v)) && x.next == null
    ensures t.kids != [] ==> x.prev == last && owner.child == old(owner.child)
  {
    hide Separate, Nodes, Under, Linked;
    LinkedParts(t);
    AllDeepApart(t);
    KidsExist(t.kids);
    Strangers(t, v);
    TopsInside(t);
    NodesExist(v);
    UnderExist(v.kids);
    ghost var ks, l := t.kids, Tops(t.kids);
    if last != null {
      NextOf(l, |l| - 1);
      last.next := x;
      x.prev := last;
    } else {
      owner.child := x;
    }
    forall i | 0 <= i < |ks| ensures Linked(ks[i]) {
      assert forall x :: x in Under(ks[i].kids) ==> old(allocated(x)) && x !in Tops(ks);
      assert owner !in Nodes(ks[i]) && forall x :: x in Nodes(ks[i]) ==> old(allocated(x));
      assert old(allocated(ks[i])) && old(Linked(ks[i]));
    }
    assert old(allocated(v)) && old(Linked(v));
    GrownNodes(t, |ks|, v);
    assert Tops(Grown(t, |ks|, v).kids) == l + [x];
    SingleLinks(x);
    assert Links(l);
    LinksJoin(l, [x]);
    LinkedParts(Grown(t, |ks|, v));
  }

  // Trees of the same value, whichever way keys count.
  ghost predicate SameValue(t: Tree, u: Tree) {
    forall cs :: JsonOf(t, cs) == JsonOf(u, cs)
  }

  // The children copied so far.
  ghost predicate Copied(ks: seq<Tree>, us: seq<Tree>) {
    |us| <= |ks| && forall k :: 0 <= k < |us| ==> SameValue(us[k], ks[k]) && us[k].node.key == ks[k].node.key
  }

  lemma NoCopies(ks: seq<Tree>)
    ensures Copied(ks, [])
  {
  }

  lemma OneMoreCopy(ks: seq<Tree>, t: Tree, v: Tree)
    requires Copied(ks, t.kids) && |t.kids| < |ks| && SameValue(v, ks[|t.kids|]) && v.node.key == ks[|t.kids|].node.key
    ensures Copied(ks, Grown(t, |t.kids|, v).kids) && |Grown(t, |t.kids|, v).kids| == |t.kids| + 1
    ensures Grown(t, |t.kids|, v).kids[|t.kids|] == v
  {
    hide SameValue;
  }

  lemma CopyOf(t: Tree, u: Tree)
    requires u.node.value == t.node.value && Copied(t.kids, u.kids) && |u.kids| == |t.kids|
    ensures SameValue(u, t)
  {
    forall cs ensures JsonOf(u, cs) == JsonOf(t, cs) {
      assert ItemsOf(u.kids, cs) == ItemsOf(t.kids, cs) && PairsOf(u.kids, cs) == PairsOf(t.kids, cs);
    }
  }

  lemma OnlyNode(x: Item)
    requires x.child == null
    ensures Stands(Tree(x, [])) && Nodes(Tree(x, [])) == {x}
  {
  }

  lemma ChildAt(t: Tree, i: nat)
    requires Linked(t) && i <= |t.kids|
    ensures i == 0 ==> t.node.child == if i < |t.kids| then t.kids[i].node else null
    ensures i < |t.kids|
            ==> Linked(t.kids[i]) && t.kids[i].node.next == if i + 1 < |t.kids| then t.kids[i + 1].node else null
  {
    if i < |t.kids| { NextOf(Tops(t.kids), i); }
  }

  // cJSON_Duplicate: new nodes, the same value. The copy is made under the name it is to
  // be added by.
  method Duplicate(item: Item, key: Text, ghost t: Tree) returns (copy: Item, ghost u: Tree)
    requires t.node == item && Linked(t)
    ensures u.node == copy && Stands(u) && fresh(Nodes(u)) && Unlinked(copy) && copy.key == key
    ensures SameValue(u, t)
    decreases t
  {
    hide Linked, Separate, Nodes, Under, SameValue, Copied;
    NodesExist(t); UnderExist(t.kids);
    copy := new Item(key, item.value);
    u := Tree(copy, []);
    OnlyNode(copy);
    ChildAt(t, 0);
    NoCopies(t.kids);
    var cptr, nptr: Item? := item.child, null;
    ghost var i := 0;
    while cptr != null
      invariant i <= |t.kids| && cptr == if i < |t.kids| then t.kids[i].node else null
      invariant u.node == copy && |u.kids| == i && Copied(t.kids, u.kids) && Stands(u) && fresh(Nodes(u)) && Linked(t)
      invariant Unlinked(copy) && nptr == if i == 0 then null else u.kids[i - 1].node
      decreases |t.kids| - i
    {
      ChildAt(t, i);
      NodesExist(u); UnderExist(u.kids);
      var newchild;
      ghost var v;
      newchild, v := Duplicate(cptr, cptr.key, t.kids[i]);
      TopsInside(u);
      TopsInside(v);
      SeparateParts(u);
      LinkLast(copy, nptr, newchild, u, v);
      GrownNodes(u, i, v);
      OneMoreCopy(t.kids, u, v);
      u := Grown(u, i, v);
      ChildAt(t, i);
      cptr, nptr, i := cptr.next, newchild, i + 1;
    }
    CopyOf(t, u);
  }
}
