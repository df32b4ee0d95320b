// Taking nodes out of trees in memory by name and by path (component/cJSON/cJSON_Utils.c,
// detach_path; component/cJSON/cJSON.c, cJSON_DetachItemFromObject).
module JsonDetach {
  import opened JsonValues
  import opened JsonSort
  import opened JsonCompare
  import opened JsonMembers
  import opened JsonPointer
  import opened JsonPatch
  import opened JsonTrees
  import opened JsonGraft
  import opened JsonKids
  import opened Options

  // ---- What a change of the children means ----

  lemma CutArray(t: Tree, i: nat, cs: bool)
    requires t.node.value.Array? && TidyTree(t, cs) && i < |t.kids|
    ensures MeaningOf(t, cs).VArray? && |MeaningOf(t, cs).items| == |t.kids| && TidyTree(Pruned(t, i), cs)
    ensures var v := MeaningOf(t, cs).items; MeaningOf(Pruned(t, i), cs) == VArray(v[..i] + v[i + 1..])
  {
    hide MeaningOf, TidyTree;
    ArrayTree(t, cs);
    var v := MeaningOf(t, cs).items;
    ArrayTree(Pruned(t, i), cs);
    assert MeaningOf(Pruned(t, i), cs).items == v[..i] + v[i + 1..];
  }

  lemma GrownArray(t: Tree, i: nat, u: Tree, cs: bool)
    requires t.node.value.Array? && TidyTree(t, cs) && i <= |t.kids| && TidyTree(u, cs)
    ensures MeaningOf(t, cs).VArray? && |MeaningOf(t, cs).items| == |t.kids| && TidyTree(Grown(t, i, u), cs)
    ensures var v := MeaningOf(t, cs).items;
            MeaningOf(Grown(t, i, u), cs) == VArray(v[..i] + [MeaningOf(u, cs)] + v[i..])
  {
    hide MeaningOf, TidyTree;
    ArrayTree(t, cs);
    var v := MeaningOf(t, cs).items;
    ArrayTree(Grown(t, i, u), cs);
    assert MeaningOf(Grown(t, i, u), cs).items == v[..i] + [MeaningOf(u, cs)] + v[i..];
  }

  lemma CutObject(t: Tree, i: nat, cs: bool)
    requires t.node.value.Object? && TidyTree(t, cs) && i < |t.kids|
    ensures MeaningOf(t, cs).VObject? && TidyTree(Pruned(t, i), cs)
    ensures MeaningOf(Pruned(t, i), cs) == VObject(Without(MeaningOf(t, cs).fields, Fold(t.kids[i].node.key, cs)))
  {
    hide Meaning, Tidy, Fields, Fold, JsonOf;
    var ms := PairsOf(t.kids, cs);
    ObjectTree(t, cs);
    RemoveAt(ms, i);
    assert PairsOf(Pruned(t, i).kids, cs) == ms[..i] + ms[i + 1..];
    ObjectJson(Pruned(t, i), cs);
    MeaningObject(ms[..i] + ms[i + 1..]);
    TidyObject(ms[..i] + ms[i + 1..]);
  }

  lemma GrownObject(t: Tree, u: Tree, cs: bool)
    requires t.node.value.Object? && TidyTree(t, cs) && TidyTree(u, cs)
    requires MeaningOf(t, cs).VObject? ==> Fold(u.node.key, cs) !in MeaningOf(t, cs).fields
    ensures MeaningOf(t, cs).VObject? && TidyTree(Grown(t, |t.kids|, u), cs)
    ensures MeaningOf(Grown(t, |t.kids|, u), cs)
            == VObject(MeaningOf(t, cs).fields[Fold(u.node.key, cs) := MeaningOf(u, cs)])
  {
    hide Meaning, Tidy, Fields, KeySet, Fold, JsonOf;
    var ms, m := PairsOf(t.kids, cs), Member(Fold(u.node.key, cs), JsonOf(u, cs));
    var grown := Grown(t, |t.kids|, u);
    ObjectTree(t, cs);
    AppendMember(ms, m);
    assert PairsOf(grown.kids, cs) == ms + [m];
    ObjectJson(grown, cs);
    MeaningObject(ms + [m]);
    TidyObject(ms + [m]);
  }

  // ---- Members in memory ----

  // The first child whose name counts as this one.
  ghost function FirstAlike(ks: seq<Tree>, key: Text, cs: bool, i: nat): (r: Option<nat>)
    requires i <= |ks|
    ensures r.Some? ==> i <= r.value < |ks| && Fold(ks[r.value].node.key, cs) == Fold(key, cs)
    ensures r.Some? ==> forall k :: i <= k < r.value ==> Fold(ks[k].node.key, cs) != Fold(key, cs)
    ensures r.None? ==> forall k :: i <= k < |ks| ==> Fold(ks[k].node.key, cs) != Fold(key, cs)
    decreases |ks| - i
  {
    if i == |ks| then None
    else if Fold(ks[i].node.key, cs) == Fold(key, cs) then Some(i) else FirstAlike(ks, key, cs, i + 1)
  }

  // What an object means under a key, by its first member alike.
  lemma AlikeField(t: Tree, key: Text, cs: bool)
    requires t.node.value.Object? && TidyTree(t, cs)
    ensures MeaningOf(t, cs).VObject?
    ensures var i := FirstAlike(t.kids, key, cs, 0);
            if i.None? then Fold(key, cs) !in MeaningOf(t, cs).fields else
              && Fold(key, cs) in MeaningOf(t, cs).fields && TidyTree(t.kids[i.value], cs)
              && MeaningOf(t, cs).fields[Fold(key, cs)] == MeaningOf(t.kids[i.value], cs)
  {
    hide MeaningOf, TidyTree, Fold;
    var i := FirstAlike(t.kids, key, cs, 0);
    if i.Some? { MemberTree(t, i.value, cs); } else { NoMember(t, Fold(key, cs), cs); }
  }

  // The member a key names, and its position; null behind the last if there is none.
  method FindKid(owner: Item, key: Text, cs: bool, ghost t: Tree) returns (c: Item?, i: nat)
    requires t.node == owner && Linked(t)
    ensures var at := FirstAlike(t.kids, key, cs, 0);
            if at.None? then c == null && i == |t.kids| else at == Some(i) && c == t.kids[i].node
  {
    hide Fold, Linked, CompareStrings;
    NodesExist(t); UnderExist(t.kids);
    i := 0;
    ChildAt(t, 0);
    c := owner.child;
    while c != null && CompareStrings(c.key, key, cs) != 0
      invariant Linked(t) && i <= |t.kids| && c == if i < |t.kids| then t.kids[i].node else null
      invariant FirstAlike(t.kids, key, cs, 0) == FirstAlike(t.kids, key, cs, i)
      decreases |t.kids| - i
    {
      KeyCompare(c.key, key, cs);
      ChildAt(t, i);
      i, c := i + 1, c.next;
    }
    if c != null { KeyCompare(c.key, key, cs); }
  }

  // cJSON_DetachItemFromObject, and the variant that heeds case.
  method DetachNamed(owner: Item, key: Text, cs: bool, ghost t: Tree) returns (x: Item?, ghost i: nat)
    requires t.node == owner && Stands(t)
    modifies owner`child, Tops(t.kids)`next, Tops(t.kids)`prev
    ensures var at := FirstAlike(t.kids, key, cs, 0);
            if at.None? then x == null && Stands(t) else
              && at == Some(i) && x == t.kids[i].node && Unlinked(x) && Stands(t.kids[i]) && Stands(Pruned(t, i))
  {
    hide Separate, Linked, Nodes, Under, Fold;
    NodesExist(t); UnderExist(t.kids);
    var c, which := FindKid(owner, key, cs, t);
    i := which;
    x := DetachKid(owner, which, t);
  }

  // The same with what it means: the object has no member of this name afterwards. That is
  // also cJSON_DeleteItemFromObject.
  method TakeNamed(owner: Item, key: Text, cs: bool, ghost k: Tree) returns (x: Item?, ghost c: Tree, ghost v: Tree)
    requires k.node == owner && owner.value.Object? && Stands(k) && TidyTree(k, cs)
    modifies owner`child, Under(k.kids)`next, Under(k.kids)`prev
    ensures c.node == owner && Stands(c) && Nodes(c) <= Nodes(k) && Under(c.kids) <= Under(k.kids) && TidyTree(c, cs)
    ensures MeaningOf(k, cs).VObject? && MeaningOf(c, cs) == VObject(Without(MeaningOf(k, cs).fields, Fold(key, cs)))
    ensures x == null <==> Fold(key, cs) !in MeaningOf(k, cs).fields
    ensures x != null ==> v.node == x && Stands(v) && Unlinked(x) && TidyTree(v, cs) && Nodes(v) !! Nodes(c)
                          && Nodes(v) <= Under(k.kids) && MeaningOf(v, cs) == MeaningOf(k, cs).fields[Fold(key, cs)]
  {
    hide Separate, Linked, Nodes, Under, TidyTree, MeaningOf, Fold;
    NodesExist(k); UnderExist(k.kids);
    TopsInside(k);
    AlikeField(k, key, cs);
    ghost var i;
    x, i := DetachNamed(owner, key, cs, k);
    c, v := k, k;
    if x != null {
      CutObject(k, i, cs);
      CutNodes(k, i);
      KidsUnder(k.kids);
      c, v := Pruned(k, i), k.kids[i];
    }
  }

  // ---- detach_path ----

  // The member detach_path takes, which ignores case whatever the variant, is not the one
  // named: an earlier or the only one alike has another name.
  ghost predicate Clash(k: Tree, key: Text, cs: bool) {
    cs && k.node.value.Object?
    && FirstAlike(k.kids, key, false, 0).Some? && k.kids[FirstAlike(k.kids, key, false, 0).value].node.key != key
  }

  // Without a clash the member taken is the one named.
  lemma NoClash(k: Tree, key: Text, cs: bool)
    requires k.node.value.Object? && TidyTree(k, cs) && !Clash(k, key, cs)
    ensures FirstAlike(k.kids, key, false, 0) == FirstAlike(k.kids, key, cs, 0)
  {
    if cs {
      var i := FirstAlike(k.kids, key, false, 0);
      if i.Some? {
        hide TidyTree;
        MemberTree(k, i.value, cs);
      }
    }
  }

  // With one it is another member.
  lemma ClashTakes(k: Tree, key: Text, cs: bool)
    requires TidyTree(k, cs) && Clash(k, key, cs)
    ensures var i := FirstAlike(k.kids, key, false, 0).value;
            MeaningOf(k, cs).VObject? && k.kids[i].node.key in MeaningOf(k, cs).fields && k.kids[i].node.key != key
  {
    hide TidyTree, MeaningOf;
    MemberTree(k, FirstAlike(k.kids, key, false, 0).value, cs);
  }

  // The removal half of detach_path, at a parent found: right, by the meaning, if and only
  // if there is no clash.
  method DetachChild(parent: Item, key: Text, cs: bool, ghost k: Tree, ghost t: Text) returns (x: Item?, ghost i: nat)
    requires k.node == parent && Stands(k) && TidyTree(k, cs) && key == Decoded(t)
    modifies parent`child, Tops(k.kids)`next, Tops(k.kids)`prev
    ensures x == null ==> Stands(k)
    ensures x != null
            ==> i < |k.kids| && x == k.kids[i].node && Unlinked(x) && Stands(k.kids[i]) && Stands(Pruned(k, i))
    ensures x != null ==> TidyTree(k.kids[i], cs) && TidyTree(Pruned(k, i), cs)
    ensures var e := EditChild(MeaningOf(k, cs), t, Remove, Code(cs));
            var right := if x == null then e.None? else e == Some(MeaningOf(Pruned(k, i), cs));
            right <==> !Clash(k, key, cs)
    ensures Clash(k, key, cs) ==> x != null
    ensures !Clash(k, key, cs) && x != null
            ==> LastChild(MeaningOf(k, cs), t, Code(cs)) == Some(MeaningOf(k.kids[i], cs))
  {
    hide Separate, Linked, Nodes, Under, TidyTree, MeaningOf, IndexValue, Fold, Decoded;
    x, i := null, 0;
    NodesExist(k); UnderExist(k.kids);
    match parent.value {
      case Array(_) =>
        ArrayTree(k, cs);
        assert key[0..] == key == UpToSlash(key) + key[TokenEnd(key, 0)..];
        var index := DecodeIndex(key, 0, UpToSlash(key), key[TokenEnd(key, 0)..]);
        if index.None? {
          return;
        }
        i := index.value;
        x := DetachKid(parent, index.value, k);
        if x != null { CutArray(k, i, cs); }
      case Object(_) =>
        AlikeField(k, key, cs);
        x, i := DetachNamed(parent, key, false, k);
        if Clash(k, key, cs) {
          ClashTakes(k, key, cs);
          CutObject(k, i, cs);
          MemberTree(k, i, cs);
          OtherCut(MeaningOf(k, cs).fields, k.kids[i].node.key, key, cs);
        } else {
          NoClash(k, key, cs);
          if x != null { CutObject(k, i, cs); }
        }
      case _ =>
        ScalarTree(k, cs);
    }
  }

  lemma OtherCut(f: map<Text, Value>, other: Text, key: Text, cs: bool)
    requires cs && other in f && other != key
    ensures Fold(other, cs) == other && Fold(key, cs) == key
    ensures key in f ==> Without(f, other) != Without(f, key)
  {
    if key in f { assert key in Without(f, other) && key !in Without(f, key); }
  }

  // ---- The parent of a place ----

  // A copy of a text, decoded in place.
  method DecodeText(t: Text) returns (key: Text)
    ensures key == Decoded(t)
  {
    var s := new char[|t|](i requires 0 <= i < |t| => t[i]);
    assert s[..] == t;
    var n := DecodeInPlace(s);
    key := s[..n];
  }

  // strrchr for a slash.
  method FindSlash(path: Text) returns (slash: Option<nat>)
    ensures slash == LastSlash(path)
  {
    var k: nat := |path|;
    assert path[..|path|] == path;
    while k > 0 && path[k - 1] != '/'
      invariant k <= |path| && LastSlash(path) == LastSlash(path[..k])
    {
      assert path[..k][..k - 1] == path[..k - 1];
      k := k - 1;
    }
    if k > 0 {
      slash := Some(k - 1);
    } else {
      assert path[..0] == "";
      slash := None;
    }
  }

  // The last token of a path as the code has it.
  method ChildText(path: Text) returns (slash: Option<nat>, key: Text)
    ensures slash == LastSlash(path)
    ensures slash.Some? ==> key == Decoded(path[slash.value + 1..])
  {
    slash := FindSlash(path);
    key := "";
    if slash.Some? {
      key := DecodeText(path[slash.value + 1..]);
    }
  }

  // A path with a slash has a place above the last token.
  lemma PathAbove(path: Text)
    ensures LastSlash(path).None? <==> Target(PathOf(path)).None? || Target(PathOf(path)).value == []
    ensures LastSlash(path).Some? ==>
              var k, ts := LastSlash(path).value, Target(PathOf(path)).value;
              Looked(PathOf(path[..k])) == ts[..|ts| - 1] && path[k + 1..] == ts[|ts| - 1]
  {
    hide Tokens, LastSlash;
    SplitTokens(path);
    NoTokens();
    if LastSlash(path).Some? && path[0] != '/' { assert [path[LastSlash(path).value + 1..]][..0] == []; }
    if path != "" && path[0] == '/' { SlashIn(path, 0); }
  }

  lemma NoTokens()
    ensures Tokens("") == []
  {
  }

  lemma SlashIn(path: Text, i: nat)
    requires i < |path| && path[i] == '/'
    ensures LastSlash(path).Some?
  {
  }

  // Another subtree at the place a path leads to.
  lemma PlaceChanged(t: Tree, at: seq<nat>, w: Tree, ts: seq<Text>, cs: bool)
    requires TidyTree(t, cs) && Walk(t, ts, cs) == Some(at) && HasSub(t, at)
    requires w.node == Sub(t, at).node && TidyTree(w, cs)
    ensures TidyTree(PutSub(t, at, w), cs) && ValueAt(MeaningOf(t, cs), ts, Code(cs)) == Some(MeaningOf(Sub(t, at), cs))
    ensures MeaningOf(PutSub(t, at, w), cs) == ValuePut(MeaningOf(t, cs), ts, MeaningOf(w, cs), Code(cs))
  {
    hide TidyTree, MeaningOf, Walk;
    WalkMeans(t, ts, cs);
    WalkPut(t, ts, w, cs);
  }

  // Whether detach_path takes another member than a path names.
  ghost predicate Stumbles(t: Tree, path: Path, cs: bool) {
    var p := Target(path);
    p.Some? && p.value != [] && (
      var at := Walk(t, p.value[..|p.value| - 1], cs);
      at.Some? && HasSub(t, at.value) && Clash(Sub(t, at.value), Decoded(Last(p.value)), cs))
  }

  // What a removal comes to: the document without what the path names, or nothing done.
  ghost predicate RemovesRight(v: Value, p: Option<seq<Text>>, done: bool, w: Value, cs: bool) {
    if p.None? || p.value == [] then !done && w == v else
      var e := EditAt(v, p.value, Remove, Code(cs));
      if done then e == Some(w) else e.None? && w == v
  }

  lemma RemovalAbove(v: Value, ts: seq<Text>, cs: bool, parent: Option<Value>, e: Option<Value>, x: Option<Value>)
    requires ts != [] && parent == ValueAt(v, ts[..|ts| - 1], Code(cs))
    requires parent.Some? ==> e == EditChild(parent.value, Last(ts), Remove, Code(cs))
    requires parent.Some? ==> x == LastChild(parent.value, Last(ts), Code(cs))
    ensures EditAt(v, ts, Remove, Code(cs)) == if parent.None? || e.None? then None else
              Some(ValuePut(v, ts[..|ts| - 1], e.value, Code(cs)))
    ensures TakenAt(v, ts, Code(cs)) == if parent.None? then None else x
  {
    hide ValueAt, ValuePut, EditChild, LastChild;
  }

  lemma PutInjective(v: Value, ts: seq<Text>, w: Value, y: Value, cs: bool)
    requires ValueAt(v, ts, Code(cs)).Some? && w != y
    ensures ValuePut(v, ts, w, Code(cs)) != ValuePut(v, ts, y, Code(cs))
  {
    hide ValueAt, ValuePut;
    PutGet(v, ts, w, Code(cs));
    PutGet(v, ts, y, Code(cs));
  }

  // detach_path: the node the path leads to comes out with all below it, and the document
  // closes up around it; the right one if and only if the path does not stumble.
  method DetachPath(root: Item, path: Text, cs: bool, ghost t: Tree) returns (x: Item?, ghost u: Tree, ghost v: Tree)
    requires t.node == root && Stands(t) && TidyTree(t, cs)
    modifies Nodes(t)`child, Under(t.kids)`next, Under(t.kids)`prev
    ensures u.node == root && Stands(u) && TidyTree(u, cs) && Nodes(u) <= Nodes(t) && (x == null ==> u == t)
    ensures x != null ==> v.node == x && Unlinked(x) && Stands(v) && TidyTree(v, cs) && Nodes(v) <= Nodes(t) - Nodes(u)
    ensures RemovesRight(MeaningOf(t, cs), Target(PathOf(path)), x != null, MeaningOf(u, cs), cs)
            <==> !Stumbles(t, PathOf(path), cs)
    ensures Stumbles(t, PathOf(path), cs) ==> x != null
    ensures x != null ==> Target(PathOf(path)).Some? && Target(PathOf(path)).value != []
    ensures x != null && !Stumbles(t, PathOf(path), cs)
            ==> TakenAt(MeaningOf(t, cs), Target(PathOf(path)).value, Code(cs)) == Some(MeaningOf(v, cs))
  {
    hide Separate, Linked, Nodes, Under, TidyTree, MeaningOf, EditAt, EditChild, LastChild, AroundSub, ValueAt,
         ValuePut, Child, Walk, Decoded, PathOf, Target, LastSlash, Clash, TakenAt;
    x, u, v := null, t, t;
    PathAbove(path);
    NodesExist(t); UnderExist(t.kids);
    var slash, key := ChildText(path);
    if slash.None? {
      return;
    }
    ghost var ts := Target(PathOf(path)).value;
    ghost var above, tok := ts[..|ts| - 1], Last(ts);
    WalkMeans(t, above, cs);
    var parent;
    ghost var at;
    parent, at := FindNode(root, path[..slash.value], cs, t);
    if parent == null {
      RemovalAbove(MeaningOf(t, cs), ts, cs, None, None, None);
      return;
    }
    ghost var k := Sub(t, at);
    ghost var kv := MeaningOf(k, cs);
    RemovalAbove(MeaningOf(t, cs), ts, cs, Some(kv), EditChild(kv, tok, Remove, Code(cs)),
                 LastChild(kv, tok, Code(cs)));
    SubParts(t, at);
    SubLinked(t, at);
    TopsInside(k);
    ghost var i;
    x, i := DetachChild(parent, key, cs, k, tok);
    assert AroundSub(t, at);
    if x == null {
      SubLinked(t, at);
      return;
    }
    v := k.kids[i];
    KidInside(k, i);
    CutNodes(k, i);
    PutSubParts(t, at, Pruned(k, i));
    PutLinked(t, at, Pruned(k, i));
    PlaceChanged(t, at, Pruned(k, i), above, cs);
    u := PutSub(t, at, Pruned(k, i));
    ghost var e, w := EditChild(kv, tok, Remove, Code(cs)), MeaningOf(Pruned(k, i), cs);
    if e.Some? && e.value != w { PutInjective(MeaningOf(t, cs), above, e.value, w, cs); }
  }
}
