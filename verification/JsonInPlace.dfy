// JSON Patch on trees of nodes in memory, which are changed in place
// (component/cJSON/cJSON_Utils.c, apply_patch and cJSONUtils_ApplyPatches).
module JsonInPlace {
  import opened JsonValues
  import opened JsonSort
  import opened JsonMembers
  import opened JsonPointer
  import opened JsonPatch
  import opened JsonLeads
  import opened JsonTrees
  import opened JsonGraft
  import opened JsonKids
  import opened JsonDetach
  import opened Options

  // ---- The end of apply_patch ----

  // A tree to be put in: on its own, away from the document.
  ghost predicate Ready(x: Item, v: Tree, k: Tree)
    reads Nodes(v)`child, Under(v.kids)`next, Under(v.kids)`prev, x`next, x`prev
  {
    v.node == x && Unlinked(x) && Stands(v) && Nodes(v) !! Nodes(k)
  }

  // The status an addition at a child of a value comes to: 9 where nothing can be added, 10 for
  // an index beyond the end, 11 for no index.
  ghost function ChildStatus(v: Value, t: Text, cs: bool): int {
    match v
    case VArray(items) =>
      if LastText(t, Code(cs)) == "-" then 0 else if LastIndex(t, Code(cs)).None? then 11
      else if LastIndex(t, Code(cs)).value > |items| then 10 else 0
    case VObject(_) => 0
    case _ => 9
  }

  // The status of an addition where a path leads, 9 also without a place.
  ghost function PlaceStatus(v: Value, path: Path, cs: bool): int {
    var p := Target(path);
    if p.None? || p.value == [] then 9 else
      var parent := ValueAt(v, p.value[..|p.value| - 1], Code(cs));
      if parent.None? then 9 else ChildStatus(parent.value, Last(p.value), cs)
  }

  // The insertion at an array.
  method AddElement(parent: Item, key: Text, x: Item, cs: bool, ghost k: Tree, ghost v: Tree, ghost t: Text)
    returns (status: int, ghost w: Tree)
    requires k.node == parent && parent.value.Array? && Stands(k) && TidyTree(k, cs) && Ready(x, v, k)
    requires TidyTree(v, cs) && key == Decoded(t)
    modifies parent`child, x`next, x`prev, Tops(k.kids)`next, Tops(k.kids)`prev
    ensures status == ChildStatus(MeaningOf(k, cs), t, cs)
    ensures var e := EditChild(MeaningOf(k, cs), t, Add(MeaningOf(v, cs)), Code(cs));
            (status == 0 <==> e.Some?) && (status == 0 ==> TidyTree(w, cs) && MeaningOf(w, cs) == e.value)
    ensures w.node == parent && Stands(w) && if status == 0 then Nodes(w) == Nodes(k) + Nodes(v) else w == k
  {
    hide Separate, Linked, Nodes, Under, TidyTree, MeaningOf, IndexValue, Decoded;
    NodesExist(k); UnderExist(k.kids); NodesExist(v); UnderExist(v.kids);
    status, w := 0, k;
    ArrayTree(k, cs);
    ghost var items := MeaningOf(k, cs).items;
    if key == "-" {
      AddKid(parent, x, k, v);
      GrownArray(k, |k.kids|, v, cs);
      GrownNodes(k, |k.kids|, v);
      assert items[..|items|] + [MeaningOf(v, cs)] + items[|items|..] == items + [MeaningOf(v, cs)];
      w := Grown(k, |k.kids|, v);
      return;
    }
    assert key[0..] == key == UpToSlash(key) + key[TokenEnd(key, 0)..];
    var index := DecodeIndex(key, 0, UpToSlash(key), key[TokenEnd(key, 0)..]);
    if index.None? {
      status := 11;
      return;
    }
    var ok := InsertKid(parent, index.value, x, k, v);
    if !ok {
      status := 10;
      return;
    }
    GrownArray(k, index.value, v, cs);
    GrownNodes(k, index.value, v);
    w := Grown(k, index.value, v);
  }

  // The insertion at an object: a member of this name goes, the new one comes.
  method AddMember(parent: Item, x: Item, cs: bool, ghost k: Tree, ghost v: Tree, ghost t: Text) returns (ghost w: Tree)
    requires k.node == parent && parent.value.Object? && Stands(k) && TidyTree(k, cs) && Ready(x, v, k)
    requires TidyTree(v, cs) && x.key == Decoded(t)
    modifies parent`child, x`next, x`prev, Under(k.kids)`next, Under(k.kids)`prev
    ensures var e := EditChild(MeaningOf(k, cs), t, Add(MeaningOf(v, cs)), Code(cs));
            e.Some? && TidyTree(w, cs) && MeaningOf(w, cs) == e.value
    ensures w.node == parent && Stands(w) && Nodes(w) <= Nodes(k) + Nodes(v)
  {
    hide Separate, Linked, Nodes, Under, TidyTree, MeaningOf, Fold, Decoded;
    NodesExist(k); UnderExist(k.kids); NodesExist(v); UnderExist(v.kids);
    TopsInside(k);
    TopsInside(v);
    var old_item;
    ghost var c, o;
    old_item, c, o := TakeNamed(parent, x.key, cs, k);
    TopsInside(c);
    AddKid(parent, x, c, v);
    GrownObject(c, v, cs);
    GrownNodes(c, |c.kids|, v);
    w := Grown(c, |c.kids|, v);
    ghost var f, key := MeaningOf(k, cs).fields, Fold(x.key, cs);
    assert Without(f, key)[key := MeaningOf(v, cs)] == f[key := MeaningOf(v, cs)];
  }

  method AddChild(parent: Item, key: Text, x: Item, cs: bool, ghost k: Tree, ghost v: Tree, ghost t: Text)
    returns (status: int, ghost w: Tree)
    requires k.node == parent && Stands(k) && TidyTree(k, cs) && Ready(x, v, k) && TidyTree(v, cs)
    requires x.key == key == Decoded(t)
    modifies parent`child, x`next, x`prev, Under(k.kids)`next, Under(k.kids)`prev
    ensures status == ChildStatus(MeaningOf(k, cs), t, cs)
    ensures var e := EditChild(MeaningOf(k, cs), t, Add(MeaningOf(v, cs)), Code(cs));
            (status == 0 <==> e.Some?) && (status == 0 ==> TidyTree(w, cs) && MeaningOf(w, cs) == e.value)
    ensures w.node == parent && Stands(w) && if status == 0 then Nodes(w) <= Nodes(k) + Nodes(v) else w == k
  {
    hide Separate, Linked, Nodes, Under, TidyTree, MeaningOf, IndexValue, Decoded, Fold;
    match parent.value {
      case Array(_) =>
        TopsInside(k);
        status, w := AddElement(parent, key, x, cs, k, v, t);
      case Object(_) =>
        w := AddMember(parent, x, cs, k, v, t);
        status := 0;
      case _ =>
        ScalarTree(k, cs);
        status, w := 9, k;
    }
  }

  lemma AdditionAbove(v: Value, path: Path, ts: seq<Text>, x: Value, cs: bool, parent: Option<Value>)
    requires Target(path) == Some(ts) && ts != [] && parent == ValueAt(v, ts[..|ts| - 1], Code(cs))
    ensures PlaceStatus(v, path, cs) == if parent.None? then 9 else ChildStatus(parent.value, Last(ts), cs)
    ensures PutAt(v, path, x, Code(cs)) == if parent.None? then None else
              var e := EditChild(parent.value, Last(ts), Add(x), Code(cs));
              if e.None? then None else Some(ValuePut(v, ts[..|ts| - 1], e.value, Code(cs)))
  {
    hide ValueAt, ValuePut, EditChild;
  }

  // The tree is put in where the path leads.
  method AddPath(root: Item, path: Text, x: Item, cs: bool, ghost t: Tree, ghost v: Tree)
    returns (status: int, ghost u: Tree)
    requires t.node == root && Stands(t) && TidyTree(t, cs) && Ready(x, v, t) && TidyTree(v, cs)
    requires LastSlash(path).Some? ==> x.key == Decoded(path[LastSlash(path).value + 1..])
    modifies Nodes(t)`child, Under(t.kids)`next, Under(t.kids)`prev, x`next, x`prev
    ensures status == PlaceStatus(MeaningOf(t, cs), PathOf(path), cs)
    ensures var e := PutAt(MeaningOf(t, cs), PathOf(path), MeaningOf(v, cs), Code(cs));
            (status == 0 <==> e.Some?) && (status == 0 ==> MeaningOf(u, cs) == e.value)
    ensures u.node == root && Stands(u) && TidyTree(u, cs)
    ensures if status == 0 then Nodes(u) <= Nodes(t) + Nodes(v) else u == t
  {
    hide Separate, Linked, Nodes, Under, TidyTree, MeaningOf, EditChild, AroundSub, ValueAt, ValuePut, Child, Walk,
         Decoded, PathOf, Target, LastSlash, PutAt, PlaceStatus, ChildStatus;
    status, u := 9, t;
    PathAbove(path);
    NoPlace(MeaningOf(t, cs), PathOf(path), MeaningOf(v, cs), cs);
    NodesExist(t); UnderExist(t.kids); NodesExist(v); UnderExist(v.kids);
    var slash, key := ChildText(path);
    if slash.None? {
      return;
    }
    ghost var ts := Target(PathOf(path)).value;
    ghost var above, tok := ts[..|ts| - 1], Last(ts);
    WalkMeans(t, above, cs);
    AdditionAbove(MeaningOf(t, cs), PathOf(path), ts, MeaningOf(v, cs), cs, ValueAt(MeaningOf(t, cs), above, Code(cs)));
    var parent;
    ghost var at;
    parent, at := FindNode(root, path[..slash.value], cs, t);
    if parent == null {
      return;
    }
    ghost var k := Sub(t, at);
    SubParts(t, at);
    SubLinked(t, at);
    TopsInside(k);
    TopsInside(t);
    TopsInside(v);
    ghost var w;
    status, w := AddChild(parent, key, x, cs, k, v, tok);
    assert AroundSub(t, at);
    if status != 0 {
      SubLinked(t, at);
      return;
    }
    PutSubParts(t, at, w);
    PutLinked(t, at, w);
    PlaceChanged(t, at, w, above, cs);
    u := PutSub(t, at, w);
  }

  lemma NoPlace(v: Value, path: Path, x: Value, cs: bool)
    ensures Target(path).None? || Target(path).value == []
            ==> PutAt(v, path, x, Code(cs)) == None && PlaceStatus(v, path, cs) == 9
  {
    hide EditAt;
  }

  // The operation test: the two sides may be left sorted, which changes no meaning.
  method TestPath(root: Item, path: Text, value: Item, cs: bool, ghost t: Tree, ghost tv: Tree)
    returns (status: int, ghost u: Tree, ghost uv: Tree)
    requires t.node == root && Stands(t) && TidyTree(t, cs) && tv.node == value && Stands(tv) && TidyTree(tv, cs)
    requires Nodes(tv) !! Nodes(t)
    modifies Nodes(t)`child, Under(t.kids)`next, Under(t.kids)`prev, Nodes(tv)`child, Under(tv.kids)`next,
             Under(tv.kids)`prev
    ensures status
            == if ValueAt(MeaningOf(t, cs), Looked(PathOf(path)), Code(cs)) == Some(MeaningOf(tv, cs)) then 0 else 1
    ensures u.node == root && Stands(u) && Kept(t, u, cs) && Stands(uv) && Kept(tv, uv, cs)
  {
    hide Separate, Linked, Nodes, Under, TidyTree, MeaningOf, AroundSub, ValueAt, ValuePut, Walk, PathOf, Looked;
    status, u, uv := 1, t, tv;
    ghost var ts := Looked(PathOf(path));
    WalkMeans(t, ts, cs);
    KeptItself(t, cs);
    KeptItself(tv, cs);
    NodesExist(t); UnderExist(t.kids); NodesExist(tv); UnderExist(tv.kids);
    var node;
    ghost var at;
    node, at := FindNode(root, path, cs, t);
    if node == null {
      return;
    }
    ghost var k := Sub(t, at);
    SubParts(t, at);
    SubLinked(t, at);
    TopsInside(tv);
    TopsInside(t);
    var equal;
    ghost var w;
    equal, w, uv := CompareTrees(node, value, cs, k, tv);
    status := if equal then 0 else 1;
    assert AroundSub(t, at);
    PutSubParts(t, at, w);
    PutLinked(t, at, w);
    u := PutSub(t, at, w);
    forall c ensures Same(t, u, c) { PutSubSame(t, at, w, c); }
    assert Same(t, u, cs);
  }

  // The item takes the name it is added under. A node of the model has one name for good:
  // the node is made anew, over the same children.
  method Rename(x: Item, key: Text, ghost v: Tree) returns (y: Item, ghost w: Tree)
    requires v.node == x && Stands(v)
    ensures w == Tree(y, v.kids) && fresh(y) && y.key == key && Stands(w) && Unlinked(y)
    ensures Nodes(w) == Nodes(v) - {x} + {y} && SameValue(w, v)
  {
    hide Nodes, Under, Separate, Linked;
    NodesExist(v); UnderExist(v.kids);
    y := new Item(key, x.value);
    w := Tree(y, v.kids);
    LinkedParts(v);
    KidsExist(v.kids);
    assert Linked(v);
    y.child := x.child;
    assert Linked(v);
    LinkedParts(v);
    LinkedParts(w);
    SeparateParts(v);
    OwnNodes(v);
    OwnNodes(w);
    forall i, j | 0 <= i < j < |v.kids| ensures Nodes(v.kids[i]) !! Nodes(v.kids[j]) { KidsApart(v, i, j); }
    FromParts(w);
  }

  // cJSON_AddItemToObject: the tree becomes the last member, under this name.
  method AddNamed(owner: Item, x: Item, key: Text, cs: bool, ghost t: Tree, ghost v: Tree)
    returns (ghost u: Tree, ghost w: Tree)
    requires t.node == owner && owner.value.Object? && Stands(t) && TidyTree(t, cs) && Ready(x, v, t) && TidyTree(v, cs)
    requires MeaningOf(t, cs).VObject? ==> Fold(key, cs) !in MeaningOf(t, cs).fields
    modifies owner`child, x`prev, Under(t.kids)`next
    ensures u.node == owner && Stands(u) && TidyTree(u, cs) && MeaningOf(t, cs).VObject?
    ensures MeaningOf(u, cs) == VObject(MeaningOf(t, cs).fields[Fold(key, cs) := MeaningOf(v, cs)])
    ensures forall y :: y in Nodes(u) && y !in Nodes(t) && y !in Nodes(v) ==> fresh(y)
    ensures u == Grown(t, |t.kids|, w) && w.node.key == key && SameValue(w, v)
  {
    hide Separate, Linked, Nodes, Under, TidyTree, MeaningOf, Fold, JsonOf;
    NodesExist(t); UnderExist(t.kids); NodesExist(v); UnderExist(v.kids);
    TopsInside(t);
    TopsInside(v);
    var item := x;
    w := v;
    if x.key != key {
      item, w := Rename(x, key, v);
      SameMeaning(w, v);
      TopsInside(w);
    }
    AddKid(owner, item, t, w);
    GrownObject(t, w, cs);
    GrownNodes(t, |t.kids|, w);
    u := Grown(t, |t.kids|, w);
  }

  lemma SameMeaning(t: Tree, u: Tree)
    requires SameValue(t, u)
    ensures forall cs :: MeaningOf(u, cs) == MeaningOf(t, cs) && TidyTree(u, cs) == TidyTree(t, cs)
  {
  }

  // What copy and move put in place: a duplicate, or the node itself taken out.
  method FetchFrom(root: Item, from: Text, move: bool, key: Text, cs: bool, ghost t: Tree)
    returns (x: Item?, ghost u: Tree, ghost v: Tree)
    requires t.node == root && Stands(t) && TidyTree(t, cs)
    modifies Nodes(t)`child, Under(t.kids)`next, Under(t.kids)`prev
    ensures u.node == root && Stands(u) && TidyTree(u, cs) && Nodes(u) <= Nodes(t) && (x == null || !move ==> u == t)
    ensures x != null ==> fresh(x) && Ready(x, v, u) && x.key == key && TidyTree(v, cs)
    ensures x != null ==> forall y :: y in Nodes(v) && y !in Nodes(t) ==> fresh(y)
    ensures !move ==> ValueAt(MeaningOf(t, cs), Looked(PathOf(from)), Code(cs))
                      == if x == null then None else Some(MeaningOf(v, cs))
    ensures move && !Stumbles(t, PathOf(from), cs)
            ==> RemovesRight(MeaningOf(t, cs), Target(PathOf(from)), x != null, MeaningOf(u, cs), cs)
    ensures move && x != null ==> Target(PathOf(from)).Some? && Target(PathOf(from)).value != []
    ensures move && x != null && !Stumbles(t, PathOf(from), cs)
            ==> TakenAt(MeaningOf(t, cs), Target(PathOf(from)).value, Code(cs)) == Some(MeaningOf(v, cs))
  {
    hide Separate, Linked, Nodes, Under, TidyTree, MeaningOf, ValueAt, Walk, PathOf, Looked, Target, TakenAt,
         RemovesRight, Stumbles, SameValue;
    x, u, v := null, t, t;
    NodesExist(t); UnderExist(t.kids);
    if move {
      x, u, v := DetachPath(root, from, cs, t);
      if x != null {
        NodesExist(u); UnderExist(u.kids);
        ghost var w := v;
        x, v := Rename(x, key, v);
        SameMeaning(v, w);
      }
    } else {
      WalkMeans(t, Looked(PathOf(from)), cs);
      var node;
      ghost var at;
      node, at := FindNode(root, from, cs, t);
      if node != null {
        SubLinked(t, at);
        SubParts(t, at);
        x, v := Duplicate(node, key, Sub(t, at));
        TopsInside(v);
        SameMeaning(v, Sub(t, at));
      }
    }
  }

  // The operation asked for by name, path, value and source; none without a value it needs.
  ghost function Asked(name: Text, path: Text, value: Option<Value>, from: Text): Option<Op> {
    if name == "remove" then Some(Op(PathOf(path), Remove))
    else if name == "copy" then Some(Op(PathOf(path), Copy(PathOf(from))))
    else if name == "move" then Some(Op(PathOf(path), Move(PathOf(from))))
    else if value.None? then None
    else Some(Op(PathOf(path), if name == "add" then Add(value.value) else Replace(value.value)))
  }

  predicate Named(name: Text) {
    name == "remove" || name == "copy" || name == "move" || name == "add" || name == "replace"
  }

  // Where the operation removes something, by a path that stumbles.
  ghost predicate Trips(t: Tree, name: Text, path: Text, from: Text, cs: bool) {
    || ((name == "remove" || name == "replace") && Stumbles(t, PathOf(path), cs))
    || (name == "move" && Stumbles(t, PathOf(from), cs))
  }

  // What is done with the value put in.
  lemma PutMeans(v: Value, w: Value, name: Text, path: Text, from: Text, x: Value, cs: bool)
    requires name == "copy" ==> ValueAt(v, Looked(PathOf(from)), Code(cs)) == Some(x) && w == v
    requires name == "move" ==> Target(PathOf(from)).Some? && Target(PathOf(from)).value != []
    requires name == "move" ==> TakenAt(v, Target(PathOf(from)).value, Code(cs)) == Some(x)
    requires name == "move" ==> EditAt(v, Target(PathOf(from)).value, Remove, Code(cs)) == Some(w)
    requires name == "add" ==> w == v
    requires name == "replace" ==> Target(PathOf(path)).Some? && Target(PathOf(path)).value != []
    requires name == "replace" ==> EditAt(v, Target(PathOf(path)).value, Remove, Code(cs)) == Some(w)
    requires name in {"copy", "move", "add", "replace"} && path != ""
    ensures var op := Asked(name, path, Some(x), from);
            && op.Some? && Apply(v, op.value, Code(cs)) == PutAt(w, PathOf(path), x, Code(cs))
            && (name == "replace" ==> Apply(v, op.value, Code(cs)).Some?)
  {
    hide ValueAt, EditAt, TakenAt, PathOf;
    NotRoot(path);
    if name == "replace" { RemoveThenAdd(v, Target(PathOf(path)).value, x, Code(cs)); }
  }

  lemma NotRoot(path: Text)
    requires path != ""
    ensures PathOf(path) != Pointer([])
  {
  }

  // What an operation leaves behind: its result, or after a failure all there was but for
  // what had been taken out by then.
  ghost predicate Performed(v: Value, op: Option<Op>, status: int, w: Value, half: Option<Path>, cs: bool) {
    && (status == 0 <==> op.Some? && Apply(v, op.value, Code(cs)).Some?)
    && w == if status == 0 then Apply(v, op.value, Code(cs)).value
            else if half.Some? then Deprived(v, half.value, cs) else v
  }

  // There is something below the root that a path names.
  ghost predicate Removable(v: Value, path: Path, cs: bool) {
    var p := Target(path);
    p.Some? && p.value != [] && EditAt(v, p.value, Remove, Code(cs)).Some?
  }

  // The status of an operation: 13 with nothing to remove, 5 with no source there, 7 without a
  // value, else that of the addition to what the removal has left.
  ghost function Refusal(v: Value, name: Text, path: Text, value: Option<Value>, from: Text, cs: bool): int {
    if (name == "remove" || name == "replace") && !Removable(v, PathOf(path), cs) then 13
    else if name == "remove" then 0
    else SupplyStatus(v, name, path, value, from, cs)
  }

  ghost function SupplyStatus(v: Value, name: Text, path: Text, value: Option<Value>, from: Text, cs: bool): int {
    if name == "copy" then
      if ValueAt(v, Looked(PathOf(from)), Code(cs)).None? then 5 else PlaceStatus(v, PathOf(path), cs)
    else if name == "move" then
      if !Removable(v, PathOf(from), cs) then 5 else PlaceStatus(Deprived(v, PathOf(from), cs), PathOf(path), cs)
    else if value.None? then 7
    else PlaceStatus(if name == "replace" then Deprived(v, PathOf(path), cs) else v, PathOf(path), cs)
  }

  // Whose removal comes first, where that can be in vain.
  ghost function Half(name: Text, path: Text, value: Option<Value>, from: Text): Option<Path> {
    if name == "move" then Some(PathOf(from))
    else if name == "replace" && value.None? then Some(PathOf(path)) else None
  }

  ghost function ValueOf(value: Item?, tv: Tree, cs: bool): Option<Value> {
    if value == null then None else Some(MeaningOf(tv, cs))
  }

  // The removal that did not trip, in the terms of Performed.
  lemma TakenOut(v: Value, w: Value, path: Path, done: bool, cs: bool)
    requires RemovesRight(v, Target(path), done, w, cs)
    ensures w == Deprived(v, path, cs)
    ensures done <==> Removable(v, path, cs)
    ensures done
            <==> Target(path).Some? && Target(path).value != [] && EditAt(v, Target(path).value, Remove, Code(cs)).Some?
    ensures done ==> EditAt(v, Target(path).value, Remove, Code(cs)) == Some(w)
  {
    hide EditAt;
  }

  lemma RemovalMeans(v: Value, path: Text, x: Option<Value>, from: Text, cs: bool)
    requires path != ""
    ensures var p := Target(PathOf(path));
            var there := p.Some? && p.value != [] && EditAt(v, p.value, Remove, Code(cs)).Some?;
            && Apply(v, Asked("remove", path, x, from).value, Code(cs))
               == (if there then EditAt(v, p.value, Remove, Code(cs)) else None)
            && (!there && x.Some? ==> Apply(v, Asked("replace", path, x, from).value, Code(cs)) == None)
  {
    hide EditAt, PathOf;
    NotRoot(path);
    var p := Target(PathOf(path));
    if p.Some? && p.value != [] && x.Some? { RemoveThenAdd(v, p.value, x.value, Code(cs)); }
  }

  lemma MoveMeans(v: Value, path: Text, from: Text, cs: bool)
    ensures var p := Target(PathOf(from));
            !(p.Some? && p.value != [] && EditAt(v, p.value, Remove, Code(cs)).Some?)
            ==> Apply(v, Asked("move", path, None, from).value, Code(cs)) == None
    ensures path == "" ==> Apply(v, Asked("move", path, None, from).value, Code(cs)) == None
    ensures path == "" ==> Apply(v, Asked("copy", path, None, from).value, Code(cs)) == None
    ensures ValueAt(v, Looked(PathOf(from)), Code(cs)) == None
            ==> Apply(v, Asked("copy", path, None, from).value, Code(cs)) == None
  {
    hide EditAt, ValueAt, TakenAt, PathOf;
    RootPath();
  }

  lemma RootPath()
    ensures PathOf("") == Pointer([]) && Target(PathOf("")) == Some([])
  {
  }

  // The operations remove and replace up to the removal.
  method TakeOut(root: Item, path: Text, cs: bool, ghost t: Tree) returns (ok: bool, ghost u: Tree)
    requires t.node == root && Stands(t) && TidyTree(t, cs) && path != ""
    modifies Nodes(t)`child, Under(t.kids)`next, Under(t.kids)`prev
    ensures u.node == root && Stands(u) && TidyTree(u, cs) && Nodes(u) <= Nodes(t)
    ensures !Stumbles(t, PathOf(path), cs) ==> MeaningOf(u, cs) == Deprived(MeaningOf(t, cs), PathOf(path), cs)
    ensures !ok ==> u == t
    ensures ok ==> Target(PathOf(path)).Some? && Target(PathOf(path)).value != []
    ensures !Stumbles(t, PathOf(path), cs) ==> (ok <==> var p := Target(PathOf(path));
              p.Some? && p.value != [] && EditAt(MeaningOf(t, cs), p.value, Remove, Code(cs)).Some?)
    ensures ok && !Stumbles(t, PathOf(path), cs)
            ==> EditAt(MeaningOf(t, cs), Target(PathOf(path)).value, Remove, Code(cs)) == Some(MeaningOf(u, cs))
    ensures Stumbles(t, PathOf(path), cs)
            ==> ok && EditAt(MeaningOf(t, cs), Target(PathOf(path)).value, Remove, Code(cs)) != Some(MeaningOf(u, cs))
  {
    hide Separate, Linked, Nodes, Under, TidyTree, MeaningOf, EditAt, PathOf, Deprived, Target, Walk;
    var old_item;
    ghost var v;
    old_item, u, v := DetachPath(root, path, cs, t);
    ok := old_item != null;
    if !Stumbles(t, PathOf(path), cs) { TakenOut(MeaningOf(t, cs), MeaningOf(u, cs), PathOf(path), ok, cs); }
  }

  // What is to be put in place, and the document it goes into.
  method Source(root: Item, name: Text, value: Item?, from: Text, key: Text, cs: bool, ghost t: Tree, ghost tv: Tree)
    returns (status: int, x: Item?, ghost u: Tree, ghost v: Tree)
    requires t.node == root && Stands(t) && TidyTree(t, cs)
    requires value != null ==> tv.node == value && Stands(tv) && TidyTree(tv, cs) && Nodes(tv) !! Nodes(t)
    modifies Nodes(t)`child, Under(t.kids)`next, Under(t.kids)`prev
    ensures u.node == root && Stands(u) && TidyTree(u, cs) && Nodes(u) <= Nodes(t)
    ensures status == if x != null then 0 else if name == "move" || name == "copy" then 5 else 7
    ensures (x == null || name != "move" ==> u == t)
    ensures x != null ==> fresh(x) && Ready(x, v, u) && x.key == key && TidyTree(v, cs)
    ensures x != null ==> forall y :: y in Nodes(v) && y !in Nodes(t) ==> fresh(y)
    ensures name == "copy" ==> ValueAt(MeaningOf(t, cs), Looked(PathOf(from)), Code(cs))
                               == if x == null then None else Some(MeaningOf(v, cs))
    ensures name == "move" && !Stumbles(t, PathOf(from), cs)
            ==> RemovesRight(MeaningOf(t, cs), Target(PathOf(from)), x != null, MeaningOf(u, cs), cs)
    ensures name == "move" && x != null ==> Target(PathOf(from)).Some? && Target(PathOf(from)).value != []
    ensures name == "move" && x != null && !Stumbles(t, PathOf(from), cs)
            ==> TakenAt(MeaningOf(t, cs), Target(PathOf(from)).value, Code(cs)) == Some(MeaningOf(v, cs))
    ensures name != "copy" && name != "move"
            ==> ValueOf(value, tv, cs) == if x == null then None else Some(MeaningOf(v, cs))
  {
    hide Separate, Linked, Nodes, Under, TidyTree, MeaningOf, ValueAt, Walk, PathOf, Looked, Target, TakenAt,
         RemovesRight, Stumbles, SameValue;
    status, x, u, v := 0, null, t, t;
    NodesExist(t); UnderExist(t.kids);
    if name == "move" || name == "copy" {
      x, u, v := FetchFrom(root, from, name == "move", key, cs, t);
      status := if x == null then 5 else 0;
    } else if value == null {
      status := 7;
    } else {
      x, v := Duplicate(value, key, tv);
      TopsInside(v);
      SameMeaning(v, tv);
    }
  }

  // The document mid and the value y an operation comes to before the addition.
  ghost predicate Sourced(v: Value, name: Text, path: Text, value: Option<Value>, from: Text, mid: Value, y: Value,
                          cs: bool)
  {
    && (name == "copy" ==> ValueAt(v, Looked(PathOf(from)), Code(cs)) == Some(y) && mid == v)
    && (name == "move" ==> Removable(v, PathOf(from), cs) && mid == Deprived(v, PathOf(from), cs)
                           && TakenAt(v, Target(PathOf(from)).value, Code(cs)) == Some(y))
    && (name == "add" ==> value == Some(y) && mid == v)
    && (name == "replace" ==> value == Some(y) && Removable(v, PathOf(path), cs)
                              && mid == Deprived(v, PathOf(path), cs))
  }

  lemma IsSourced(v: Value, name: Text, path: Text, value: Option<Value>, from: Text, mid: Value, y: Value, cs: bool)
    requires name == "copy" ==> ValueAt(v, Looked(PathOf(from)), Code(cs)) == Some(y)
    requires name == "copy" || name == "add" ==> mid == v
    requires name == "move" ==> Removable(v, PathOf(from), cs) && mid == Deprived(v, PathOf(from), cs)
                                && TakenAt(v, Target(PathOf(from)).value, Code(cs)) == Some(y)
    requires name == "add" || name == "replace" ==> value == Some(y)
    requires name == "replace" ==> mid == Deprived(v, PathOf(path), cs) && Target(PathOf(path)).Some?
                                   && Target(PathOf(path)).value != []
                                   && EditAt(v, Target(PathOf(path)).value, Remove, Code(cs)) == Some(mid)
    ensures Sourced(v, name, path, value, from, mid, y, cs)
  {
    hide ValueAt, Looked, PathOf, TakenAt, EditAt, Deprived;
  }

  // The addition made or not made there is what the operation comes to.
  lemma Supplied(v: Value, name: Text, path: Text, value: Option<Value>, from: Text, mid: Value, y: Value,
                 status: int, w: Value, cs: bool)
    requires name in {"copy", "move", "add", "replace"} && (path == "" ==> name == "copy" || name == "move")
    requires Sourced(v, name, path, value, from, mid, y, cs) && status == PlaceStatus(mid, PathOf(path), cs)
    requires var e := PutAt(mid, PathOf(path), y, Code(cs));
             (status == 0 <==> e.Some?) && w == if status == 0 then e.value else mid
    ensures status == SupplyStatus(v, name, path, value, from, cs)
    ensures Performed(v, Asked(name, path, value, from), status, w, Half(name, path, value, from), cs)
  {
    hide ValueAt, Looked, PathOf, PlaceStatus, PutAt, TakenAt, EditAt, Apply;
    MoveMeans(v, path, from, cs);
    if path == "" {
      RootPath();
      NoPlace(mid, PathOf(path), y, cs);
    } else {
      PutMeans(v, mid, name, path, from, y, cs);
    }
  }

  // Without a source.
  lemma Unsupplied(v: Value, name: Text, path: Text, value: Option<Value>, from: Text, w: Value, cs: bool)
    requires name in {"copy", "move", "add", "replace"} && (path == "" ==> name == "copy" || name == "move")
    requires name == "copy" ==> ValueAt(v, Looked(PathOf(from)), Code(cs)).None? && w == v
    requires name == "move" ==> !Removable(v, PathOf(from), cs) && w == Deprived(v, PathOf(from), cs)
    requires name == "add" ==> value.None? && w == v
    requires name == "replace" ==> value.None? && w == Deprived(v, PathOf(path), cs)
    ensures var status := if name == "copy" || name == "move" then 5 else 7;
            status == SupplyStatus(v, name, path, value, from, cs)
            && Performed(v, Asked(name, path, value, from), status, w, Half(name, path, value, from), cs)
  {
    hide ValueAt, Looked, PathOf, PlaceStatus, Deprived, Apply;
    MoveMeans(v, path, from, cs);
  }

  // What is to be added and where, for a document v a removal may have come before in.
  method Supply(root: Item, name: Text, path: Text, value: Item?, from: Text, cs: bool, ghost v: Value,
                ghost calm: bool, ghost t: Tree, ghost tv: Tree)
    returns (status: int, ghost u: Tree)
    requires t.node == root && Stands(t) && TidyTree(t, cs) && name in {"copy", "move", "add", "replace"}
    requires value != null ==> tv.node == value && Stands(tv) && TidyTree(tv, cs) && Nodes(tv) !! Nodes(t)
    requires path == "" ==> name == "copy" || name == "move"
    requires calm && name == "move" ==> !Stumbles(t, PathOf(from), cs)
    requires calm ==> MeaningOf(t, cs) == if name == "replace" then Deprived(v, PathOf(path), cs) else v
    requires calm && name == "replace"
             ==> Target(PathOf(path)).Some? && Target(PathOf(path)).value != []
                 && EditAt(v, Target(PathOf(path)).value, Remove, Code(cs)) == Some(MeaningOf(t, cs))
    modifies Nodes(t)`child, Under(t.kids)`next, Under(t.kids)`prev
    ensures u.node == root && Stands(u) && TidyTree(u, cs)
    ensures forall y :: y in Nodes(u) && y !in Nodes(t) ==> fresh(y)
    ensures calm ==> status == SupplyStatus(v, name, path, ValueOf(value, tv, cs), from, cs)
    ensures calm ==> var x := ValueOf(value, tv, cs);
              Performed(v, Asked(name, path, x, from), status, MeaningOf(u, cs), Half(name, path, x, from), cs)
  {
    hide Separate, Linked, Nodes, Under, TidyTree, MeaningOf, ValueAt, EditAt, PutAt, Walk, PathOf, Looked, Target,
         TakenAt, RemovesRight, Stumbles, Apply, Deprived, Decoded, PlaceStatus, Removable, SupplyStatus, Performed,
         Asked, Half, Sourced;
    NodesExist(t); UnderExist(t.kids); NodesExist(tv); UnderExist(tv.kids);
    TopsInside(t);
    var slash, key := ChildText(path);
    var x;
    ghost var w;
    status, x, u, w := Source(root, name, value, from, key, cs, t, tv);
    ghost var op := ValueOf(value, tv, cs);
    if calm && name == "move" { TakenOut(v, MeaningOf(u, cs), PathOf(from), x != null, cs); }
    if x == null {
      if calm { Unsupplied(v, name, path, op, from, MeaningOf(u, cs), cs); }
      return;
    }
    NodesExist(u); UnderExist(u.kids);
    InsideUnder(t, u);
    TopsInside(w);
    ghost var mid, y := MeaningOf(u, cs), MeaningOf(w, cs);
    if calm { IsSourced(v, name, path, op, from, mid, y, cs); }
    status, u := AddPath(root, path, x, cs, u, w);
    if calm { Supplied(v, name, path, op, from, mid, y, status, MeaningOf(u, cs), cs); }
  }

  // apply_patch, after the members of the patch have been read: the operations remove and
  // replace, then what is to be added, then where.
  method Perform(root: Item, name: Text, path: Text, value: Item?, from: Text, cs: bool, ghost t: Tree, ghost tv: Tree)
    returns (status: int, ghost u: Tree)
    requires t.node == root && Stands(t) && TidyTree(t, cs) && Named(name)
    requires value != null ==> tv.node == value && Stands(tv) && TidyTree(tv, cs) && Nodes(tv) !! Nodes(t)
    requires path == "" ==> name == "copy" || name == "move"
    modifies Nodes(t)`child, Under(t.kids)`next, Under(t.kids)`prev
    ensures u.node == root && Stands(u) && TidyTree(u, cs)
    ensures forall y :: y in Nodes(u) && y !in Nodes(t) ==> fresh(y)
    ensures !Trips(t, name, path, from, cs)
            ==> status == Refusal(MeaningOf(t, cs), name, path, ValueOf(value, tv, cs), from, cs)
    ensures !Trips(t, name, path, from, cs)
            ==> var x := ValueOf(value, tv, cs);
                Performed(MeaningOf(t, cs), Asked(name, path, x, from), status, MeaningOf(u, cs),
                          Half(name, path, x, from), cs)
    ensures name == "remove" && Trips(t, name, path, from, cs)
            ==> status == 0 && Apply(MeaningOf(t, cs), Op(PathOf(path), Remove), Code(cs)) != Some(MeaningOf(u, cs))
  {
    hide Separate, Linked, Nodes, Under, TidyTree, MeaningOf, ValueAt, EditAt, PutAt, Walk, PathOf, Looked, Target,
         TakenAt, RemovesRight, Stumbles, Apply, Deprived, Decoded, SupplyStatus;
    status, u := 0, t;
    ghost var calm := !Trips(t, name, path, from, cs);
    NodesExist(t); UnderExist(t.kids); NodesExist(tv); UnderExist(tv.kids);
    TopsInside(tv);
    if name == "remove" || name == "replace" {
      RemovalMeans(MeaningOf(t, cs), path, ValueOf(value, tv, cs), from, cs);
      var ok;
      ok, u := TakeOut(root, path, cs, t);
      if !ok {
        return 13, t;
      }
      if name == "remove" {
        return;
      }
    }
    InsideUnder(t, u);
    TopsInside(t);
    status, u := Supply(root, name, path, value, from, cs, MeaningOf(t, cs), calm, u, tv);
  }

  lemma InsideUnder(t: Tree, u: Tree)
    requires Separate(t) && Separate(u) && u.node == t.node && Nodes(u) <= Nodes(t)
    ensures Under(u.kids) <= Under(t.kids)
  {
    hide Under;
    SeparateParts(u);
    OwnNodes(u);
    OwnNodes(t);
  }

  // ---- Patch objects in memory ----

  // A string member is a node of that text.
  lemma LeafText(k: Tree, cs: bool)
    ensures MeaningOf(k, cs).VString? <==> k.node.value.String?
    ensures k.node.value.String? ==> MeaningOf(k, cs).s == k.node.value.s
  {
  }

  // The names of the members a patch object needs count as they are.
  lemma OwnNames(cs: bool)
    ensures Fold("op", cs) == "op" && Fold("path", cs) == "path" && Fold("value", cs) == "value"
    ensures Fold("from", cs) == "from"
  {
  }

  // get_object_item.
  method GetMember(owner: Item, key: Text, cs: bool, ghost t: Tree) returns (c: Item?, ghost i: nat)
    requires t.node == owner && Linked(t) && TidyTree(t, cs) && Fold(key, cs) == key
    ensures c == null <==> !(MeaningOf(t, cs).VObject? && key in MeaningOf(t, cs).fields)
    ensures c != null ==> i < |t.kids| && c == t.kids[i].node && owner.value.Object?
                          && MeaningOf(t, cs).fields[key] == MeaningOf(t.kids[i], cs) && TidyTree(t.kids[i], cs)
  {
    hide Linked, TidyTree, MeaningOf, Fold;
    c, i := null, 0;
    match owner.value {
      case Object(_) =>
        AlikeField(t, key, cs);
        c, i := FindKid(owner, key, cs, t);
      case Array(_) => ArrayTree(t, cs);
      case _ => ScalarTree(t, cs);
    }
  }

  // A string member's text.
  method GetText(owner: Item, key: Text, cs: bool, ghost t: Tree) returns (r: Option<Text>)
    requires t.node == owner && Linked(t) && TidyTree(t, cs) && Fold(key, cs) == key
    ensures r == if HasText(MeaningOf(t, cs), key) then Some(MeaningOf(t, cs).fields[key].s) else None
  {
    hide Linked, TidyTree, MeaningOf, Fold;
    var c;
    ghost var i;
    c, i := GetMember(owner, key, cs, t);
    r := None;
    if c != null {
      LeafText(t.kids[i], cs);
      if c.value.String? {
        r := Some(c.value.s);
      }
    }
  }

  // The operation test against the value of a patch object.
  method TestPatch(root: Item, path: Text, value: Item, cs: bool, ghost t: Tree, ghost tp: Tree, ghost i: nat)
    returns (status: int, ghost u: Tree, ghost up: Tree)
    requires t.node == root && Stands(t) && TidyTree(t, cs) && Stands(tp) && TidyTree(tp, cs) && Nodes(tp) !! Nodes(t)
    requires i < |tp.kids| && tp.kids[i].node == value && tp.node.value.Object?
    modifies Nodes(t)`child, Under(t.kids)`next, Under(t.kids)`prev, Nodes(tp)`child, Under(tp.kids)`next,
             Under(tp.kids)`prev
    ensures status
            == if ValueAt(MeaningOf(t, cs), Looked(PathOf(path)), Code(cs)) == Some(MeaningOf(tp.kids[i], cs)) then 0
               else 1
    ensures u.node == root && Stands(u) && Kept(t, u, cs) && Stands(up) && Kept(tp, up, cs)
  {
    hide Separate, Linked, Nodes, Under, TidyTree, MeaningOf, Around, PathOf, Looked, ValueAt;
    ghost var k := tp.kids[i];
    ObjectTree(tp, cs);
    AroundLinked(tp, i);
    OutsideKid(tp, i);
    KidInside(tp, i);
    TopsInside(t);
    TopsInside(tp);
    NodesExist(t); UnderExist(t.kids); NodesExist(tp); UnderExist(tp.kids);
    ghost var w;
    status, u, w := TestPath(root, path, value, cs, t, k);
    assert Around(tp, i);
    PutKid(tp, i, w);
    AroundPut(tp, i, w);
    up := Put(tp, i, w);
    AroundLinked(up, i);
    KeptMember(tp, i, w, cs);
  }

  // A kept member keeps the object.
  lemma KeptMember(t: Tree, i: nat, w: Tree, cs: bool)
    requires TidyTree(t, cs) && Separate(t) && i < |t.kids| && Kept(t.kids[i], w, cs)
    ensures Kept(t, Put(t, i, w), cs)
  {
    hide Separate, Nodes, TidyTree, MeaningOf;
    PutKid(t, i, w);
    forall c ensures Same(t, Put(t, i, w), c) { PutSame(t, i, w, c); }
    assert Same(t, Put(t, i, w), cs);
  }

  // A move from a source that is no text, which the code follows all the same.
  ghost predicate NullFrom(p: Value) {
    HasText(p, "path") && HasText(p, "op") && p.fields["op"].s == "move" && "from" in p.fields && !HasText(p, "from")
  }

  // Where the patch removes something, by a path that stumbles.
  ghost predicate TripsBy(t: Tree, p: Value, cs: bool) {
    HasText(p, "path") && HasText(p, "op")
    && Trips(t, p.fields["op"].s, p.fields["path"].s, if HasText(p, "from") then p.fields["from"].s else "", cs)
  }

  // The status a patch comes to: 2 without a path, 3 without a known operation, 1 for a test
  // that fails, 4 without a source and 5 with one that is no text, 7 for a whole document
  // without a value.
  ghost function StatusOf(v: Value, p: Value, cs: bool): int {
    if !HasText(p, "path") then 2
    else if !HasText(p, "op") || p.fields["op"].s !in ["test", "add", "remove", "replace", "move", "copy"] then 3
    else
      var name, path := p.fields["op"].s, p.fields["path"].s;
      var value := if "value" in p.fields then Some(p.fields["value"]) else None;
      if name == "test" then
        if value.Some? && ValueAt(v, Looked(PathOf(path)), Code(cs)) == value then 0 else 1
      else if path == "" && name !in ["move", "copy"] then if name == "remove" || value.Some? then 0 else 7
      else if name in ["move", "copy"] && !HasText(p, "from") then if "from" in p.fields then 5 else 4
      else Refusal(v, name, path, value, if HasText(p, "from") then p.fields["from"].s else "", cs)
  }

  // What a patch comes to: done where it asks for something that can be done, else refused.
  ghost predicate Outcome(v: Value, p: Value, status: int, w: Value, cs: bool) {
    && status == StatusOf(v, p, cs)
    && (status == 0 <==> Request(p).Some? && Apply(v, Request(p).value, Code(cs)).Some?)
    && w == if status == 0 then Apply(v, Request(p).value, Code(cs)).value else Left(v, p, cs)
  }

  // The same as the standard has it, wherever nothing tells the two apart.
  ghost predicate Standard(v: Value, p: Value, status: int, w: Value, cs: bool) {
    var op := Request(p);
    op.Some? && MovesSteadily(op.value) ==>
      var e := Apply(v, op.value, Rfc(cs));
      Differs(v, op.value, cs) <==> !(if status == 0 then e == Some(w) else e.None?)
  }

  ghost predicate MovesSteadily(op: Op) {
    op.edit.Move? && op.edit.from.Pointer? && op.edit.from.ts != []
    ==> IsToken(Last(op.edit.from.ts)) && Steady(Last(op.edit.from.ts), 0, 0)
  }

  lemma OutcomeStandard(v: Value, p: Value, status: int, w: Value, cs: bool)
    requires Outcome(v, p, status, w, cs)
    ensures Standard(v, p, status, w, cs)
  {
    hide Apply, Differs, Request, Steady;
    if Request(p).Some? && MovesSteadily(Request(p).value) { RfcAgreement(v, Request(p).value, cs); }
  }

  // The members of a patch, put together.
  lemma RequestIs(v: Value, p: Value, path: Text, name: Text, value: Option<Value>, from: Text, cs: bool)
    requires HasText(p, "path") && p.fields["path"].s == path && HasText(p, "op") && p.fields["op"].s == name
    requires value == if "value" in p.fields then Some(p.fields["value"]) else None
    requires HasText(p, "from") ==> from == p.fields["from"].s
    requires Named(name) && (name == "copy" || name == "move" ==> HasText(p, "from"))
    requires (path == "" ==> name == "copy" || name == "move")
    ensures Request(p) == Asked(name, path, value, from)
    ensures Left(v, p, cs)
            == if Half(name, path, value, from).Some? then Deprived(v, Half(name, path, value, from).value, cs) else v
  {
    hide PathOf, Deprived;
  }

  // The special cases of the whole document: removed, or replaced by a duplicate.
  method ApplyToRoot(name: Text, value: Item?, cs: bool, ghost t: Tree, ghost tv: Tree)
    returns (status: int, r: Item?, ghost u: Tree)
    requires name == "remove" || name == "add" || name == "replace"
    requires value != null ==> tv.node == value && Stands(tv) && TidyTree(tv, cs)
    ensures r == null <==> name != "remove" && value == null
    ensures r != null ==> status == 0 && u.node == r && Stands(u) && TidyTree(u, cs) && fresh(Nodes(u))
    ensures r != null ==> var op := Asked(name, "", ValueOf(value, tv, cs), "");
              op.Some? && Apply(MeaningOf(t, cs), op.value, Code(cs)) == Some(MeaningOf(u, cs))
    ensures r == null ==> status == 7
  {
    hide Separate, Linked, Nodes, Under, TidyTree, MeaningOf, SameValue;
    status, r, u := 0, null, t;
    RootPath();
    NodesExist(tv); UnderExist(tv.kids);
    if name == "remove" {
      r := new Item("", Invalid);
      u := Tree(r, []);
      OnlyNode(r);
      NothingValid(u, cs);
      return;
    }
    if value == null {
      status := 7;
      return;
    }
    LinkedParts(tv);
    r, u := Duplicate(value, "", tv);
    SameMeaning(u, tv);
  }

  lemma NothingValid(u: Tree, cs: bool)
    requires u.node.value.Invalid?
    ensures TidyTree(u, cs) && MeaningOf(u, cs) == VInvalid
  {
  }

  // What the operation on the whole document means.
  lemma RootMeans(v: Value, p: Value, name: Text, value: Option<Value>, status: int, w: Value, cs: bool)
    requires name == "remove" || name == "add" || name == "replace"
    requires HasText(p, "path") && p.fields["path"].s == "" && HasText(p, "op") && p.fields["op"].s == name
    requires value == if "value" in p.fields then Some(p.fields["value"]) else None
    requires if name != "remove" && value.None? then status == 7 && w == v else
               status == 0 && Asked(name, "", value, "").Some?
                   && Apply(v, Asked(name, "", value, "").value, Code(cs)) == Some(w)
    ensures Outcome(v, p, status, w, cs)
  {
    hide Apply;
    RootPath();
  }

  lemma RootSteady(t: Tree, name: Text, from: Text, cs: bool)
    requires name != "move"
    ensures !Trips(t, name, "", from, cs)
  {
    RootPath();
  }

  // What is refused for want of a source.
  lemma Sourceless(v: Value, p: Value, cs: bool)
    requires HasText(p, "path") && HasText(p, "op") && !HasText(p, "from")
    requires p.fields["op"].s == "copy" || p.fields["op"].s == "move"
    requires p.fields["op"].s == "move" ==> "from" !in p.fields
    ensures Outcome(v, p, if "from" in p.fields then 5 else 4, v, cs)
  {
    hide Apply;
  }

  lemma StatusPerformed(v: Value, p: Value, path: Text, name: Text, value: Option<Value>, from: Text, cs: bool)
    requires HasText(p, "path") && p.fields["path"].s == path && HasText(p, "op") && p.fields["op"].s == name
    requires value == if "value" in p.fields then Some(p.fields["value"]) else None
    requires from == if HasText(p, "from") then p.fields["from"].s else ""
    requires Named(name) && (name == "copy" || name == "move" ==> HasText(p, "from"))
    requires path == "" ==> name == "copy" || name == "move"
    ensures StatusOf(v, p, cs) == Refusal(v, name, path, value, from, cs)
  {
    hide Refusal;
  }

  lemma PerformedOutcome(v: Value, p: Value, path: Text, name: Text, value: Option<Value>, from: Text, status: int,
                         w: Value, cs: bool)
    requires HasText(p, "path") && p.fields["path"].s == path && HasText(p, "op") && p.fields["op"].s == name
    requires value == if "value" in p.fields then Some(p.fields["value"]) else None
    requires from == if HasText(p, "from") then p.fields["from"].s else ""
    requires Named(name) && (name == "copy" || name == "move" ==> HasText(p, "from"))
    requires path == "" ==> name == "copy" || name == "move"
    requires Performed(v, Asked(name, path, value, from), status, w, Half(name, path, value, from), cs)
    requires status == Refusal(v, name, path, value, from, cs)
    ensures Outcome(v, p, status, w, cs)
  {
    hide Apply, Request, Left, Asked, Half, Refusal, StatusOf;
    StatusPerformed(v, p, path, name, value, from, cs);
    RequestIs(v, p, path, name, value, from, cs);
  }

  // apply_patch behind the operation test.
  method Change(root: Item, patch: Item, name: Text, path: Text, value: Item?, cs: bool, ghost t: Tree,
                ghost tp: Tree, ghost i: nat)
    returns (status: int, r: Item, ghost u: Tree)
    requires t.node == root && Stands(t) && TidyTree(t, cs) && tp.node == patch && Stands(tp) && TidyTree(tp, cs)
    requires Nodes(tp) !! Nodes(t) && !NullFrom(MeaningOf(tp, cs)) && Named(name)
    requires HasText(MeaningOf(tp, cs), "path") && MeaningOf(tp, cs).fields["path"].s == path
    requires HasText(MeaningOf(tp, cs), "op") && MeaningOf(tp, cs).fields["op"].s == name
    requires value == null <==> "value" !in MeaningOf(tp, cs).fields
    requires value != null ==> i < |tp.kids| && value == tp.kids[i].node && TidyTree(tp.kids[i], cs)
                               && MeaningOf(tp, cs).fields["value"] == MeaningOf(tp.kids[i], cs)
    modifies Nodes(t)`child, Under(t.kids)`next, Under(t.kids)`prev
    ensures u.node == r && Stands(u) && TidyTree(u, cs)
    ensures forall y :: y in Nodes(u) && y !in Nodes(t) ==> fresh(y)
    ensures r == root || path == ""
    ensures !TripsBy(t, MeaningOf(tp, cs), cs)
            ==> Outcome(MeaningOf(t, cs), MeaningOf(tp, cs), status, MeaningOf(u, cs), cs)
    ensures name == "remove" && TripsBy(t, MeaningOf(tp, cs), cs)
            ==> status == 0 && Apply(MeaningOf(t, cs), Op(PathOf(path), Remove), Code(cs)) != Some(MeaningOf(u, cs))
  {
    hide Separate, Linked, Nodes, Under, TidyTree, MeaningOf, Apply, Fold, Outcome, Trips, PathOf, Performed, Asked,
         Half;
    status, r, u := 0, root, t;
    ghost var v, p := MeaningOf(t, cs), MeaningOf(tp, cs);
    ghost var tv := if value != null then tp.kids[i] else t;
    OwnNames(cs);
    TopsInside(t);
    TopsInside(tp);
    NodesExist(t); UnderExist(t.kids); NodesExist(tp); UnderExist(tp.kids);
    if value != null {
      KidInside(tp, i);
      LinkedParts(tp);
    }
    if path == "" && (name == "remove" || name == "replace" || name == "add") {
      RootSteady(t, name, if HasText(p, "from") then p.fields["from"].s else "", cs);
      var n;
      status, n, u := ApplyToRoot(name, value, cs, t, tv);
      if n == null { u := t; } else { r := n; }
      RootMeans(v, p, name, ValueOf(value, tv, cs), status, MeaningOf(u, cs), cs);
      return;
    }
    var from := GetText(patch, "from", cs, tp);
    if (name == "move" || name == "copy") && from.None? {
      var sourced;
      ghost var j;
      sourced, j := GetMember(patch, "from", cs, tp);
      status := if sourced == null then 4 else 5;
      Sourceless(v, p, cs);
      return;
    }
    var source := if from.Some? then from.value else "";
    status, u := Perform(root, name, path, value, source, cs, t, tv);
    if !TripsBy(t, p, cs) {
      PerformedOutcome(v, p, path, name, ValueOf(value, tv, cs), source, status, MeaningOf(u, cs), cs);
    }
  }

  // apply_patch. The item that stands for the document afterwards is another one only when
  // the whole document has been removed or replaced.
  method ApplyPatch(root: Item, patch: Item, cs: bool, ghost t: Tree, ghost tp: Tree)
    returns (status: int, r: Item, ghost u: Tree, ghost up: Tree)
    requires t.node == root && Stands(t) && TidyTree(t, cs) && tp.node == patch && Stands(tp) && TidyTree(tp, cs)
    requires Nodes(tp) !! Nodes(t) && !NullFrom(MeaningOf(tp, cs))
    modifies Nodes(t)`child, Under(t.kids)`next, Under(t.kids)`prev, Nodes(tp)`child, Under(tp.kids)`next,
             Under(tp.kids)`prev
    ensures u.node == r && Stands(u) && TidyTree(u, cs)
    ensures forall y :: y in Nodes(u) && y !in Nodes(t) ==> fresh(y)
    ensures Stands(up) && Kept(tp, up, cs)
    ensures r == root || (HasText(MeaningOf(tp, cs), "path") && MeaningOf(tp, cs).fields["path"].s == "")
    ensures !TripsBy(t, MeaningOf(tp, cs), cs)
            ==> Outcome(MeaningOf(t, cs), MeaningOf(tp, cs), status, MeaningOf(u, cs), cs)
                && Standard(MeaningOf(t, cs), MeaningOf(tp, cs), status, MeaningOf(u, cs), cs)
    ensures var op := Request(MeaningOf(tp, cs));
            TripsBy(t, MeaningOf(tp, cs), cs) && op.Some? && op.value.edit.Remove?
            ==> status == 0 && Apply(MeaningOf(t, cs), op.value, Code(cs)) != Some(MeaningOf(u, cs))
  {
    hide Separate, Linked, Nodes, Under, TidyTree, MeaningOf, Apply, Fold, Outcome, Standard, Trips, Request, Left,
         PathOf, ValueAt, Looked;
    r, u, up := root, t, tp;
    ghost var v, p := MeaningOf(t, cs), MeaningOf(tp, cs);
    OwnNames(cs);
    KeptItself(tp, cs);
    TopsInside(t);
    TopsInside(tp);
    NodesExist(t); UnderExist(t.kids); NodesExist(tp); UnderExist(tp.kids);
    Malformed(v, p, cs);
    RemoveRequest(p);
    var path := GetText(patch, "path", cs, tp);
    if path.None? {
      status := 2;
      OutcomeStandard(v, p, status, v, cs);
      return;
    }
    var name := GetText(patch, "op", cs, tp);
    if name.None? || !(name.value == "test" || name.value in ["add", "remove", "replace", "move", "copy"]) {
      status := 3;
      OutcomeStandard(v, p, status, v, cs);
      return;
    }
    var value;
    ghost var i;
    value, i := GetMember(patch, "value", cs, tp);
    if name.value == "test" {
      NoTrip(t, "test", path.value, "", cs);
      status := 1;
      if value != null {
        status, u, up := TestPatch(root, path.value, value, cs, t, tp, i);
      }
      TestMeans(v, p, status, cs);
      OutcomeStandard(v, p, status, v, cs);
      return;
    }
    status, r, u := Change(root, patch, name.value, path.value, value, cs, t, tp, i);
    if !TripsBy(t, p, cs) { OutcomeStandard(v, p, status, MeaningOf(u, cs), cs); }
  }

  lemma RemoveRequest(p: Value)
    ensures Request(p).Some? && Request(p).value.edit.Remove?
            ==> HasText(p, "path") && HasText(p, "op") && p.fields["op"].s == "remove"
                && Request(p).value == Op(PathOf(p.fields["path"].s), Remove)
  {
    hide PathOf;
  }

  lemma TestMeans(v: Value, p: Value, status: int, cs: bool)
    requires HasText(p, "path") && HasText(p, "op") && p.fields["op"].s == "test"
    requires var there := ValueAt(v, Looked(PathOf(p.fields["path"].s)), Code(cs));
             status == if "value" in p.fields && there == Some(p.fields["value"]) then 0 else 1
    ensures Outcome(v, p, status, v, cs)
  {
    hide ValueAt, PathOf, Looked;
  }

  lemma NoTrip(t: Tree, name: Text, path: Text, from: Text, cs: bool)
    requires name != "remove" && name != "replace" && name != "move"
    ensures !Trips(t, name, path, from, cs)
  {
  }

  // What is refused for its form.
  lemma Malformed(v: Value, p: Value, cs: bool)
    ensures !HasText(p, "path") ==> Outcome(v, p, 2, v, cs)
    ensures HasText(p, "path") && !HasText(p, "op") ==> Outcome(v, p, 3, v, cs)
    ensures HasText(p, "path") && HasText(p, "op")
            && p.fields["op"].s !in ["test", "add", "remove", "replace", "move", "copy"]
            ==> Outcome(v, p, 3, v, cs)
  {
    hide Apply;
  }

  // ---- cJSONUtils_ApplyPatches ----

  // What the children of a tree mean, one by one.
  ghost function Meanings(ks: seq<Tree>, cs: bool): (r: seq<Value>)
    ensures |r| == |ks|
  {
    seq(|ks|, i requires 0 <= i < |ks| => MeaningOf(ks[i], cs))
  }

  // An array of patches in memory, each of some meaning.
  ghost predicate PatchesTree(s: Tree, ps: seq<Value>, cs: bool)
    reads Nodes(s)`child, Under(s.kids)`next, Under(s.kids)`prev
  {
    && Stands(s) && Meanings(s.kids, cs) == ps
    && forall i :: 0 <= i < |s.kids| ==> TidyTree(s.kids[i], cs)
  }

  lemma PatchesPut(s: Tree, i: nat, w: Tree, ps: seq<Value>, cs: bool)
    requires Separate(s) && i < |s.kids| && Kept(s.kids[i], w, cs) && Linked(Put(s, i, w))
    requires Meanings(s.kids, cs) == ps && forall k :: 0 <= k < |s.kids| ==> TidyTree(s.kids[k], cs)
    ensures PatchesTree(Put(s, i, w), ps, cs) && Nodes(Put(s, i, w)) == Nodes(s)
  {
    hide Separate, Linked, Nodes, Under, MeaningOf, TidyTree;
    PutKid(s, i, w);
    var p := Put(s, i, w);
    assert forall k :: 0 <= k < |s.kids| ==> p.kids[k] == if k == i then w else s.kids[k];
    assert forall k :: 0 <= k < |s.kids| ==> Meanings(s.kids, cs)[k] == MeaningOf(s.kids[k], cs);
    assert Meanings(p.kids, cs) == ps;
  }

  // One patch of the array.
  method ApplyNext(root: Item, patch: Item, cs: bool, ghost t: Tree, ghost s: Tree, ghost i: nat, ghost ps: seq<Value>)
    returns (status: int, r: Item, ghost u: Tree, ghost p: Tree)
    requires t.node == root && Stands(t) && TidyTree(t, cs) && PatchesTree(s, ps, cs) && Nodes(s) !! Nodes(t)
    requires i < |s.kids| && patch == s.kids[i].node && !NullFrom(ps[i])
    modifies Nodes(t)`child, Nodes(t)`next, Nodes(t)`prev, Nodes(s)`child, Nodes(s)`next, Nodes(s)`prev
    ensures u.node == r && Stands(u) && TidyTree(u, cs) && forall y :: y in Nodes(u) && y !in Nodes(t) ==> fresh(y)
    ensures p.node == s.node && PatchesTree(p, ps, cs) && Nodes(p) == Nodes(s) && p.kids[i].node == patch
    ensures !TripsBy(t, ps[i], cs) ==> Outcome(MeaningOf(t, cs), ps[i], status, MeaningOf(u, cs), cs)
  {
    hide Separate, Linked, Nodes, Under, TidyTree, MeaningOf, Around, TripsBy, Outcome, Standard, NullFrom;
    ghost var k := s.kids[i];
    AroundLinked(s, i);
    OutsideKid(s, i);
    KidInside(s, i);
    TopsInside(t);
    TopsInside(s);
    NodesExist(t); UnderExist(t.kids); NodesExist(s); UnderExist(s.kids);
    assert ps[i] == MeaningOf(k, cs);
    ghost var w;
    status, r, u, w := ApplyPatch(root, patch, cs, t, k);
    assert Around(s, i);
    AroundPut(s, i, w);
    p := Put(s, i, w);
    AroundLinked(p, i);
    PatchesPut(s, i, w, ps, cs);
  }

  // The status of a run: that of the first patch that fails, 0 if none does.
  ghost function RunStatus(v: Value, ps: seq<Value>, cs: bool): int
    decreases ps
  {
    if ps == [] then 0
    else if Request(ps[0]).Some? && Apply(v, Request(ps[0]).value, Code(cs)).Some? then
      RunStatus(Apply(v, Request(ps[0]).value, Code(cs)).value, ps[1..], cs)
    else StatusOf(v, ps[0], cs)
  }

  // The patches in turn on the document in memory, the first failure ending the run; as
  // they should be done, and with the case-sensitive variant so if no removal on the way
  // meets a name that differs in case only.
  method ApplyPatches(root: Item, patches: Item, cs: bool, ghost t: Tree, ghost s: Tree, ghost ps: seq<Value>)
    returns (status: int, r: Item, ghost u: Tree)
    requires t.node == root && Stands(t) && TidyTree(t, cs) && s.node == patches && Nodes(s) !! Nodes(t)
    requires patches.value.Array? ==> PatchesTree(s, ps, cs) && forall i :: 0 <= i < |ps| ==> !NullFrom(ps[i])
    modifies Nodes(t)`child, Nodes(t)`next, Nodes(t)`prev, Nodes(s)`child, Nodes(s)`next, Nodes(s)`prev
    ensures !patches.value.Array? ==> status == 1 && r == root && u == t
    ensures u.node == r && Stands(u) && TidyTree(u, cs) && forall y :: y in Nodes(u) && y !in Nodes(t) ==> fresh(y)
    ensures patches.value.Array? && (!cs || RunsCalm(MeaningOf(t, cs), ps))
            ==> (status == 0 <==> RunPatches(MeaningOf(t, cs), ps, Code(cs)).Some?)
                && status == RunStatus(MeaningOf(t, cs), ps, cs)
                && MeaningOf(u, cs) == RunLeaves(MeaningOf(t, cs), ps, cs)
  {
    hide Separate, Linked, Nodes, Under, TidyTree, MeaningOf, Apply, TripsBy, Outcome, NullFrom, RunsCalm, Request,
         Meanings, RunPatches, RunLeaves, RunStatus;
    status, r, u := 1, root, t;
    if !patches.value.Array? {
      return;
    }
    status := 0;
    NodesExist(t); UnderExist(t.kids); NodesExist(s); UnderExist(s.kids);
    ChildAt(s, 0);
    var current_patch := patches.child;
    ghost var p, i := s, 0;
    ghost var calm := !cs || RunsCalm(MeaningOf(t, cs), ps);
    assert ps[i..] == ps;
    while current_patch != null
      invariant i <= |ps| && PatchesTree(p, ps, cs) && Nodes(p) == Nodes(s) && Nodes(p) !! Nodes(u)
      invariant current_patch == if i < |p.kids| then p.kids[i].node else null
      invariant u.node == r && Stands(u) && TidyTree(u, cs) && forall y :: y in Nodes(u) && y !in Nodes(t) ==> fresh(y)
      invariant calm ==> RunPatches(MeaningOf(t, cs), ps, Code(cs)).Some?
                         == RunPatches(MeaningOf(u, cs), ps[i..], Code(cs)).Some?
      invariant calm ==> RunLeaves(MeaningOf(t, cs), ps, cs) == RunLeaves(MeaningOf(u, cs), ps[i..], cs)
      invariant calm ==> RunStatus(MeaningOf(t, cs), ps, cs) == RunStatus(MeaningOf(u, cs), ps[i..], cs)
      invariant calm ==> !cs || RunsCalm(MeaningOf(u, cs), ps[i..])
      decreases |ps| - i
    {
      assert ps[i..][0] == ps[i] && ps[i..][1..] == ps[i + 1..];
      NodesExist(u); UnderExist(u.kids); NodesExist(p);
      ghost var before := u;
      if calm { CalmStep(u, ps[i..], cs); }
      status, r, u, p := ApplyNext(r, current_patch, cs, u, p, i, ps);
      if calm { RunStep(MeaningOf(before, cs), ps[i..], status, MeaningOf(u, cs), cs); }
      if status != 0 {
        return;
      }
      ChildAt(p, i);
      current_patch, i := current_patch.next, i + 1;
    }
    assert ps[i..] == [];
    RunEnds(MeaningOf(u, cs), cs);
    status := 0;
  }

  lemma RunStep(v: Value, ps: seq<Value>, status: int, w: Value, cs: bool)
    requires ps != [] && Outcome(v, ps[0], status, w, cs)
    ensures RunPatches(v, ps, Code(cs)) == if status == 0 then RunPatches(w, ps[1..], Code(cs)) else None
    ensures RunLeaves(v, ps, cs) == if status == 0 then RunLeaves(w, ps[1..], cs) else w
    ensures RunStatus(v, ps, cs) == if status == 0 then RunStatus(w, ps[1..], cs) else status
    ensures RunsCalm(v, ps) && status == 0 && cs ==> RunsCalm(w, ps[1..])
  {
    hide Apply, Request, Left, Calm, StatusOf;
  }

  lemma RunEnds(v: Value, cs: bool)
    ensures RunPatches(v, [], Code(cs)) == Some(v) && RunLeaves(v, [], cs) == v && RunStatus(v, [], cs) == 0
  {
  }

  // ---- Names that differ in case only ----

  // With no other name alike in its place, a removal does not stumble.
  lemma AloneSteady(t: Tree, path: Path, cs: bool)
    requires TidyTree(t, cs) && (cs ==> Alone(MeaningOf(t, cs), path))
    ensures !Stumbles(t, path, cs)
  {
    hide TidyTree, MeaningOf, Walk, ValueAt, Decoded, Lonely;
    var p := Target(path);
    if p.Some? && p.value != [] {
      var above := p.value[..|p.value| - 1];
      WalkMeans(t, above, cs);
      var at := Walk(t, above, cs);
      if at.Some? && HasSub(t, at.value) && Clash(Sub(t, at.value), Decoded(Last(p.value)), cs) {
        ClashLonely(Sub(t, at.value), Decoded(Last(p.value)), cs);
      }
    }
  }

  lemma ClashLonely(k: Tree, key: Text, cs: bool)
    requires TidyTree(k, cs) && Clash(k, key, cs)
    ensures MeaningOf(k, cs).VObject? && !Lonely(MeaningOf(k, cs).fields, key)
  {
    hide TidyTree, MeaningOf;
    ClashTakes(k, key, cs);
  }

  // Nor then does a patch.
  lemma CalmSteady(t: Tree, p: Value, cs: bool)
    requires TidyTree(t, cs) && (cs ==> Calm(MeaningOf(t, cs), p))
    ensures !TripsBy(t, p, cs)
  {
    hide TidyTree, MeaningOf, PathOf, Stumbles, Alone;
    RootPath();
    AloneSteady(t, Pointer([]), cs) by { AtRoot(MeaningOf(t, cs)); }
    if HasText(p, "path") && HasText(p, "op") {
      if p.fields["op"].s in ["remove", "replace"] { AloneSteady(t, PathOf(p.fields["path"].s), cs); }
      if p.fields["op"].s == "move" && HasText(p, "from") { AloneSteady(t, PathOf(p.fields["from"].s), cs); }
    }
  }

  lemma AtRoot(v: Value)
    ensures Alone(v, Pointer([]))
  {
  }

  lemma CalmStep(t: Tree, ps: seq<Value>, cs: bool)
    requires TidyTree(t, cs) && (!cs || RunsCalm(MeaningOf(t, cs), ps)) && ps != []
    ensures !TripsBy(t, ps[0], cs)
  {
    hide TidyTree, MeaningOf, Apply, Request, TripsBy, Calm;
    CalmSteady(t, ps[0], cs);
  }

  // With "A" before "a" the case-sensitive variant takes the wrong one of the two.
  lemma CaseStumbles(upper: Item, lower: Item, owner: Item)
    requires upper.key == "A" && lower.key == "a" && owner.value == Object([])
    ensures Stumbles(Tree(owner, [Tree(upper, []), Tree(lower, [])]), Pointer(["a"]), true)
  {
    var ks := [Tree(upper, []), Tree(lower, [])];
    assert Lower("A") == Lower("a") && Decoded("a") == "a";
    assert FirstAlike(ks, "a", false, 0) == Some(0);
    var ts := ["a"];
    assert ts[..0] == [] && Last(ts) == "a";
    assert Walk(Tree(owner, ks), ts[..|ts| - 1], true) == Some([]);
  }
}
