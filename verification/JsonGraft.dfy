// Places in a tree of nodes in memory: finding one by its pointer, and what is around it
// (component/cJSON/cJSON_Utils.c, get_item_from_pointer).
module JsonGraft {
  import opened JsonValues
  import opened JsonSort
  import opened JsonCompare
  import opened JsonMembers
  import opened JsonPointer
  import opened JsonList
  import opened JsonTrees
  import opened JsonKids
  import opened Options

  // ---- A place in a tree and what is around it ----

  ghost predicate HasSub(t: Tree, at: seq<nat>)
    decreases at
  {
    at == [] || (at[0] < |t.kids| && HasSub(t.kids[at[0]], at[1..]))
  }

  ghost function Sub(t: Tree, at: seq<nat>): Tree
    requires HasSub(t, at)
    decreases at
  {
    if at == [] then t else Sub(t.kids[at[0]], at[1..])
  }

  ghost function PutSub(t: Tree, at: seq<nat>, u: Tree): Tree
    requires HasSub(t, at)
    decreases at
  {
    if at == [] then u else Put(t, at[0], PutSub(t.kids[at[0]], at[1..], u))
  }

  lemma {:induction false} SubParts(t: Tree, at: seq<nat>)
    requires Separate(t) && HasSub(t, at)
    ensures Separate(Sub(t, at)) && Nodes(Sub(t, at)) <= Nodes(t) && Under(Sub(t, at).kids) <= Under(t.kids)
    decreases at
  {
    hide Separate, Nodes, Under;
    if at != [] {
      KidInside(t, at[0]);
      SubParts(t.kids[at[0]], at[1..]);
    }
  }

  // All pointers of a tree but those below one place.
  ghost predicate AroundSub(t: Tree, at: seq<nat>)
    requires Separate(t) && HasSub(t, at)
    reads (Nodes(t) - Nodes(Sub(t, at)))`child
    reads (Under(t.kids) - Under(Sub(t, at).kids))`next, (Under(t.kids) - Under(Sub(t, at).kids))`prev
    decreases at
  {
    at == [] || (
      KidInside(t, at[0]);
      SubParts(t.kids[at[0]], at[1..]);
      Around(t, at[0]) && AroundSub(t.kids[at[0]], at[1..]))
  }

  lemma {:induction false} SubLinked(t: Tree, at: seq<nat>)
    requires Separate(t) && HasSub(t, at)
    ensures Separate(Sub(t, at)) && (Linked(t) <==> AroundSub(t, at) && Linked(Sub(t, at)))
    decreases at
  {
    hide Separate, Linked, Around, Nodes, Under;
    SubParts(t, at);
    if at != [] {
      KidInside(t, at[0]);
      AroundLinked(t, at[0]);
      SubLinked(t.kids[at[0]], at[1..]);
    }
  }

  // A subtree exchanged for another of the same node, whose further nodes are new or were
  // below it.
  lemma PutOther(t: Tree, i: nat, u: Tree)
    requires Separate(t) && i < |t.kids| && u.node == t.kids[i].node && Separate(u)
    requires Nodes(u) * Nodes(t) <= Nodes(t.kids[i])
    ensures Separate(Put(t, i, u)) && Nodes(Put(t, i, u)) == Nodes(t) - Nodes(t.kids[i]) + Nodes(u)
    ensures Around(Put(t, i, u), i) <==> Around(t, i)
  {
    hide Separate, Nodes, Under, Linked;
    var v := Put(t, i, u);
    OutsideKid(t, i);
    KidInside(t, i);
    OtherUnder(t, i, u);
    SeparateParts(t);
    forall a, b | 0 <= a < b < |v.kids| ensures Nodes(v.kids[a]) !! Nodes(v.kids[b]) {
      KidsApart(t, a, b);
      KidInside(t, a);
      KidInside(t, b);
    }
    OwnNode(t);
    FromParts(v);
    OwnNode(v);
    assert Tops(v.kids) == Tops(t.kids);
    assert forall j :: 0 <= j < |t.kids| && j != i ==> v.kids[j] == t.kids[j];
  }

  lemma OwnNode(t: Tree)
    ensures Nodes(t) == {t.node} + Under(t.kids)
  {
  }

  lemma OtherUnder(t: Tree, i: nat, u: Tree)
    requires Separate(t) && i < |t.kids|
    ensures Under(t.kids[i := u]) == Under(t.kids) - Nodes(t.kids[i]) + Nodes(u)
  {
    hide Separate, Nodes, Under;
    var us := t.kids[i := u];
    var rest := Under(t.kids) - Nodes(t.kids[i]);
    forall x | x in Under(us) ensures x in rest + Nodes(u) {
      InUnder(us, x);
      InUnder(t.kids, x);
      var j :| 0 <= j < |us| && x in Nodes(us[j]);
      KidsApart(t, i, j);
      assert j != i ==> x in Nodes(t.kids[j]);
    }
    forall x | x in rest + Nodes(u) ensures x in Under(us) {
      InUnder(us, x);
      InUnder(t.kids, x);
      if x in Nodes(u) {
        assert x in Nodes(us[i]);
      } else {
        var j :| 0 <= j < |t.kids| && x in Nodes(t.kids[j]);
        assert us[j] == t.kids[j];
      }
    }
  }

  lemma {:induction false} PutSubParts(t: Tree, at: seq<nat>, u: Tree)
    requires Separate(t) && HasSub(t, at) && u.node == Sub(t, at).node && Separate(u)
    requires Nodes(u) * Nodes(t) <= Nodes(Sub(t, at))
    ensures Separate(PutSub(t, at, u)) && Nodes(PutSub(t, at, u)) == Nodes(t) - Nodes(Sub(t, at)) + Nodes(u)
    ensures PutSub(t, at, u).node == t.node && HasSub(PutSub(t, at, u), at) && Sub(PutSub(t, at, u), at) == u
    ensures AroundSub(PutSub(t, at, u), at) <==> AroundSub(t, at)
    decreases at
  {
    hide Separate, Nodes, Under, Around;
    if at == [] {
    } else {
      var k := t.kids[at[0]];
      KidInside(t, at[0]);
      SubParts(k, at[1..]);
      PutSubParts(k, at[1..], u);
      PutOther(t, at[0], PutSub(k, at[1..], u));
    }
  }

  // The tree with the place changed is linked when the place is.
  lemma PutLinked(t: Tree, at: seq<nat>, u: Tree)
    requires Separate(t) && HasSub(t, at) && u.node == Sub(t, at).node && Separate(u)
    requires Nodes(u) * Nodes(t) <= Nodes(Sub(t, at)) && AroundSub(t, at) && Linked(u)
    ensures Separate(PutSub(t, at, u)) && Linked(PutSub(t, at, u)) && PutSub(t, at, u).node == t.node
  {
    hide Separate, Nodes, Under, Linked;
    PutSubParts(t, at, u);
    SubLinked(PutSub(t, at, u), at);
  }

  // ---- One step down a tree, and what it means ----

  // The first child from a position on that a token names.
  ghost function NamedFrom(ks: seq<Tree>, t: Text, cs: bool, i: nat): (r: Option<nat>)
    requires i <= |ks|
    ensures r.Some? ==> i <= r.value < |ks| && Names(t, ks[r.value].node.key, cs)
    ensures r.None? ==> forall k :: i <= k < |ks| ==> !Names(t, ks[k].node.key, cs)
    decreases |ks| - i
  {
    if i == |ks| then None else if Names(t, ks[i].node.key, cs) then Some(i) else NamedFrom(ks, t, cs, i + 1)
  }

  ghost function Step(k: Tree, t: Text, cs: bool): (r: Option<nat>)
    ensures r.Some? ==> r.value < |k.kids|
  {
    match k.node.value
    case Array(_) =>
      var i := IndexValue(t);
      if i.Some? && i.value < |k.kids| then i else None
    case Object(_) => NamedFrom(k.kids, t, cs, 0)
    case _ => None
  }

  lemma ArrayTree(t: Tree, cs: bool)
    requires t.node.value.Array?
    ensures MeaningOf(t, cs).VArray? && |MeaningOf(t, cs).items| == |t.kids|
    ensures forall i :: 0 <= i < |t.kids| ==> MeaningOf(t, cs).items[i] == MeaningOf(t.kids[i], cs)
    ensures TidyTree(t, cs) <==> forall i :: 0 <= i < |t.kids| ==> TidyTree(t.kids[i], cs)
  {
    assert forall i :: 0 <= i < |t.kids| ==> ItemsOf(t.kids, cs)[i] == JsonOf(t.kids[i], cs);
  }

  lemma ObjectTree(t: Tree, cs: bool)
    requires t.node.value.Object? && TidyTree(t, cs)
    ensures JsonOf(t, cs) == Object(PairsOf(t.kids, cs)) && TidyMembers(PairsOf(t.kids, cs))
    ensures MeaningOf(t, cs) == VObject(Fields(PairsOf(t.kids, cs)))
    ensures Fields(PairsOf(t.kids, cs)).Keys == KeySet(PairsOf(t.kids, cs))
    ensures forall i :: 0 <= i < |t.kids| ==> TidyTree(t.kids[i], cs)
  {
    hide Meaning, Tidy, Fields, KeySet;
    var ms := PairsOf(t.kids, cs);
    MeaningObject(ms);
    TidyObject(ms);
    FieldsKeys(ms);
    assert forall i :: 0 <= i < |t.kids| ==> ms[i].value == JsonOf(t.kids[i], cs);
  }

  lemma ScalarTree(t: Tree, cs: bool)
    requires !t.node.value.Array? && !t.node.value.Object?
    ensures !MeaningOf(t, cs).VArray? && !MeaningOf(t, cs).VObject?
  {
  }

  // The members of an object in memory, under their keys.
  lemma MemberTree(t: Tree, i: nat, cs: bool)
    requires t.node.value.Object? && TidyTree(t, cs) && i < |t.kids|
    ensures MeaningOf(t, cs).VObject? && Fold(t.kids[i].node.key, cs) in MeaningOf(t, cs).fields
    ensures MeaningOf(t, cs).fields[Fold(t.kids[i].node.key, cs)] == MeaningOf(t.kids[i], cs)
    ensures TidyTree(t.kids[i], cs)
    ensures forall j :: 0 <= j < |t.kids| && j != i ==> Fold(t.kids[j].node.key, cs) != Fold(t.kids[i].node.key, cs)
  {
    hide Meaning, Tidy, Fields, Fold;
    var ms := PairsOf(t.kids, cs);
    ObjectTree(t, cs);
    FieldsAt(ms);
    assert ms[i].key == Fold(t.kids[i].node.key, cs);
    forall j | 0 <= j < |t.kids| && j != i ensures Fold(t.kids[j].node.key, cs) != Fold(t.kids[i].node.key, cs) {
      assert ms[j].key == Fold(t.kids[j].node.key, cs);
    }
  }

  // A key that no member has is no field.
  lemma NoMember(t: Tree, key: Text, cs: bool)
    requires t.node.value.Object? && TidyTree(t, cs)
    requires forall i :: 0 <= i < |t.kids| ==> Fold(t.kids[i].node.key, cs) != key
    ensures MeaningOf(t, cs).VObject? && key !in MeaningOf(t, cs).fields
  {
    hide Meaning, Tidy, Fields, Fold;
    ObjectTree(t, cs);
    var ms := PairsOf(t.kids, cs);
    assert forall i :: 0 <= i < |ms| ==> ms[i].key == Fold(t.kids[i].node.key, cs);
  }

  // One step means the same in the tree and in its meaning.
  lemma StepMeans(k: Tree, t: Text, cs: bool)
    requires TidyTree(k, cs)
    ensures var i, c := Step(k, t, cs), Child(MeaningOf(k, cs), t, Code(cs));
            if i.None? then c.None? else c == Some(MeaningOf(k.kids[i.value], cs)) && TidyTree(k.kids[i.value], cs)
  {
    hide Meaning, Tidy, Fields, Fold, MeaningOf, TidyTree, IndexValue;
    if k.node.value.Array? {
      ArrayTree(k, cs);
    } else if k.node.value.Object? {
      var i := Step(k, t, cs);
      if i.Some? {
        MemberTree(k, i.value, cs);
      } else if Unescaped(t).Some? {
        NoMember(k, Fold(Unescaped(t).value, cs), cs);
      } else {
        ObjectTree(k, cs);
      }
    } else {
      ScalarTree(k, cs);
    }
  }

  lemma PutArray(k: Tree, i: nat, u: Tree, cs: bool)
    requires k.node.value.Array? && TidyTree(k, cs) && i < |k.kids| && TidyTree(u, cs)
    ensures TidyTree(Put(k, i, u), cs) && MeaningOf(k, cs).VArray? && i < |MeaningOf(k, cs).items|
    ensures MeaningOf(Put(k, i, u), cs) == VArray(MeaningOf(k, cs).items[i := MeaningOf(u, cs)])
  {
    hide MeaningOf, TidyTree;
    ArrayTree(k, cs);
    ArrayTree(Put(k, i, u), cs);
    assert MeaningOf(Put(k, i, u), cs).items == MeaningOf(k, cs).items[i := MeaningOf(u, cs)];
  }

  lemma PutObject(k: Tree, i: nat, u: Tree, cs: bool)
    requires k.node.value.Object? && TidyTree(k, cs) && i < |k.kids| && TidyTree(u, cs) && u.node == k.kids[i].node
    ensures TidyTree(Put(k, i, u), cs) && MeaningOf(k, cs).VObject?
    ensures MeaningOf(Put(k, i, u), cs)
            == VObject(MeaningOf(k, cs).fields[Fold(u.node.key, cs) := MeaningOf(u, cs)])
  {
    hide Meaning, Tidy, Fields, Fold, JsonOf;
    var ms := PairsOf(k.kids, cs);
    var n := Member(Fold(u.node.key, cs), JsonOf(u, cs));
    ObjectTree(k, cs);
    ReplaceMember(ms, i, JsonOf(u, cs));
    assert PairsOf(Put(k, i, u).kids, cs) == ms[i := n];
    ObjectJson(Put(k, i, u), cs);
    MeaningObject(ms[i := n]);
    TidyObject(ms[i := n]);
  }

  lemma ObjectJson(t: Tree, cs: bool)
    requires t.node.value.Object?
    ensures JsonOf(t, cs) == Object(PairsOf(t.kids, cs))
  {
  }

  // Another tree of the same node at the child stepped to sets the child in the meaning.
  lemma StepPut(k: Tree, t: Text, u: Tree, cs: bool)
    requires TidyTree(k, cs) && Step(k, t, cs).Some? && u.node == k.kids[Step(k, t, cs).value].node && TidyTree(u, cs)
    ensures Child(MeaningOf(k, cs), t, Code(cs)).Some?
    ensures var i := Step(k, t, cs).value;
            TidyTree(Put(k, i, u), cs)
            && MeaningOf(Put(k, i, u), cs) == SetChild(MeaningOf(k, cs), t, MeaningOf(u, cs), Code(cs))
  {
    hide Meaning, Tidy, Fields, Fold, MeaningOf, TidyTree, IndexValue;
    StepMeans(k, t, cs);
    var i := Step(k, t, cs).value;
    if k.node.value.Array? { PutArray(k, i, u, cs); } else { PutObject(k, i, u, cs); }
  }

  // ---- The way down ----

  // The place a list of tokens leads to.
  ghost function Walk(k: Tree, ts: seq<Text>, cs: bool): Option<seq<nat>>
    decreases ts
  {
    if ts == [] then Some([]) else
      var i := Step(k, ts[0], cs);
      if i.None? then None else
        var rest := Walk(k.kids[i.value], ts[1..], cs);
        if rest.None? then None else Some([i.value] + rest.value)
  }

  lemma {:induction false} WalkMeans(k: Tree, ts: seq<Text>, cs: bool)
    requires TidyTree(k, cs)
    ensures var at, v := Walk(k, ts, cs), ValueAt(MeaningOf(k, cs), ts, Code(cs));
            if at.None? then v.None? else
              && HasSub(k, at.value) && TidyTree(Sub(k, at.value), cs) && v == Some(MeaningOf(Sub(k, at.value), cs))
    decreases ts
  {
    hide MeaningOf, TidyTree, Step, Child;
    if ts != [] {
      StepMeans(k, ts[0], cs);
      var i := Step(k, ts[0], cs);
      if i.Some? {
        WalkMeans(k.kids[i.value], ts[1..], cs);
        var at := Walk(k, ts, cs);
        if at.Some? { assert at.value[1..] == Walk(k.kids[i.value], ts[1..], cs).value; }
      }
    }
  }

  // Another tree of the same node at the place found sets the place in the meaning.
  lemma {:induction false} WalkPut(k: Tree, ts: seq<Text>, u: Tree, cs: bool)
    requires TidyTree(k, cs) && TidyTree(u, cs) && Walk(k, ts, cs).Some?
    requires HasSub(k, Walk(k, ts, cs).value) && u.node == Sub(k, Walk(k, ts, cs).value).node
    ensures ValueAt(MeaningOf(k, cs), ts, Code(cs)).Some?
    ensures var p := PutSub(k, Walk(k, ts, cs).value, u);
            && p.node == k.node && TidyTree(p, cs)
            && MeaningOf(p, cs) == ValuePut(MeaningOf(k, cs), ts, MeaningOf(u, cs), Code(cs))
    decreases ts
  {
    hide MeaningOf, TidyTree, Step, Child, SetChild;
    WalkMeans(k, ts, cs);
    if ts != [] {
      StepMeans(k, ts[0], cs);
      var i := Step(k, ts[0], cs).value;
      var at := Walk(k, ts, cs).value;
      assert at[1..] == Walk(k.kids[i], ts[1..], cs).value;
      WalkPut(k.kids[i], ts[1..], u, cs);
      StepPut(k, ts[0], PutSub(k.kids[i], at[1..], u), cs);
    }
  }

  // The same tree at a place makes the whole the same.
  lemma {:induction false} PutSubSame(t: Tree, at: seq<nat>, u: Tree, c: bool)
    requires HasSub(t, at) && u.node == Sub(t, at).node && Same(Sub(t, at), u, c)
    ensures PutSub(t, at, u).node == t.node && Same(t, PutSub(t, at, u), c)
    decreases at
  {
    hide Same;
    if at != [] {
      PutSubSame(t.kids[at[0]], at[1..], u, c);
      PutSame(t, at[0], PutSub(t.kids[at[0]], at[1..], u), c);
    }
  }

  // ---- get_item_from_pointer ----

  lemma {:induction false} SubStep(t: Tree, path: seq<nat>, i: nat)
    requires HasSub(t, path) && i < |Sub(t, path).kids|
    ensures HasSub(t, path + [i]) && Sub(t, path + [i]) == Sub(t, path).kids[i]
    decreases path
  {
    var at := path + [i];
    if path == [] {
      assert at[1..] == [];
    } else {
      assert at[1..] == path[1..] + [i];
      SubStep(t.kids[path[0]], path[1..], i);
    }
  }

  // The member the next token names; null behind the last.
  method ChildNamed(current: Item, pointer: Text, p: nat, cs: bool, ghost k: Tree, ghost t: Text, ghost tail: Text)
    returns (x: Item?, ghost i: nat)
    requires k.node == current && Linked(k) && TokenAt(pointer, p, t, tail)
    ensures i <= |k.kids| && x == (if i < |k.kids| then k.kids[i].node else null)
    ensures NamedFrom(k.kids, t, cs, 0) == if i < |k.kids| then Some(i) else None
  {
    hide TokenAt, Linked, Names;
    NodesExist(k); UnderExist(k.kids);
    i := 0;
    ChildAt(k, 0);
    x := current.child;
    while x != null
      invariant Linked(k) && i <= |k.kids| && x == (if i < |k.kids| then k.kids[i].node else null)
      invariant NamedFrom(k.kids, t, cs, 0) == NamedFrom(k.kids, t, cs, i)
      decreases |k.kids| - i
    {
      var named := ComparePointers(x.key, pointer, p, cs, t, tail);
      if named {
        return;
      }
      ChildAt(k, i);
      x := x.next;
      i := i + 1;
    }
  }

  // Skipping a token of the pointer.
  method SkipToken(pointer: Text, p0: nat, ghost t: Text, ghost tail: Text) returns (p: nat)
    requires TokenAt(pointer, p0, t, tail)
    ensures p == p0 + |t| <= |pointer| && pointer[p..] == tail
  {
    TokenChars(pointer, p0, t, tail);
    p := p0;
    while p < |pointer| && pointer[p] != '/'
      invariant p0 <= p <= p0 + |t|
    {
      assert p < p0 + |t| ==> pointer[p0 + (p - p0)] == t[p - p0];
      p := p + 1;
    }
  }

  // One token followed from a node: the child, or null.
  method FollowToken(current: Item, pointer: Text, p: nat, cs: bool, ghost k: Tree, ghost t: Text, ghost tail: Text)
    returns (x: Item?, ghost i: nat)
    requires k.node == current && Linked(k) && TokenAt(pointer, p, t, tail)
    ensures x == null <==> Step(k, t, cs).None?
    ensures x != null ==> Step(k, t, cs) == Some(i) && x == k.kids[i].node && Linked(k.kids[i])
  {
    hide TokenAt, Linked, IndexValue, Names;
    x, i := null, 0;
    NodesExist(k); UnderExist(k.kids);
    match current.value {
      case Array(_) =>
        var index := DecodeIndex(pointer, p, t, tail);
        if index.None? {
          return;
        }
        LinkedParts(k);
        var _, left := null, 0;
        x, left := ItemAt(current, index.value, Tops(k.kids));
        i := index.value;
      case Object(_) =>
        x, i := ChildNamed(current, pointer, p, cs, k, t, tail);
      case _ =>
    }
    LinkedParts(k);
  }

  // A place continued.
  ghost function Onto(path: seq<nat>, w: Option<seq<nat>>): Option<seq<nat>> {
    if w.None? then None else Some(path + w.value)
  }

  lemma OntoNothing(w: Option<seq<nat>>)
    ensures Onto([], w) == w
  {
    if w.Some? { assert [] + w.value == w.value; }
  }

  lemma OntoStep(path: seq<nat>, i: nat, w: Option<seq<nat>>)
    ensures Onto(path + [i], w) == Onto(path, Onto([i], w))
  {
    if w.Some? { assert path + [i] + w.value == path + ([i] + w.value); }
  }

  lemma LookedText(pointer: Text)
    ensures pointer == "" || pointer[0] == '/' ==> pointer == PathText(Looked(PathOf(pointer)))
    ensures AllTokens(Looked(PathOf(pointer)))
    ensures pointer != "" && pointer[0] != '/' ==> Looked(PathOf(pointer)) == []
  {
    hide Tokens, PathText;
    if pointer == "" || pointer[0] == '/' { TokensText(pointer); }
  }

  // get_item_from_pointer on a tree in memory.
  method FindNode(root: Item, pointer: Text, cs: bool, ghost t: Tree) returns (node: Item?, ghost at: seq<nat>)
    requires t.node == root && Linked(t)
    ensures var w := Walk(t, Looked(PathOf(pointer)), cs);
            if w.None? then node == null else w == Some(at) && HasSub(t, at) && Sub(t, at).node == node
  {
    hide Step, IsToken, TokenAt, Linked, PathOf, Looked, PathText;
    var p, n := 0, |pointer|;
    node, at := root, [];
    ghost var ts := Looked(PathOf(pointer));
    ghost var rest, cur := ts, t;
    LookedText(pointer);
    OntoNothing(Walk(t, ts, cs));
    if n > 0 && pointer[0] != '/' {
      return;
    }
    NodesExist(t); UnderExist(t.kids);
    while p < n && pointer[p] == '/' && node != null
      invariant p <= n && AllTokens(rest) && (node != null ==> pointer[p..] == PathText(rest))
      invariant node == null ==> Walk(t, ts, cs).None?
      invariant node != null ==> cur.node == node && Linked(cur) && HasSub(t, at) && Sub(t, at) == cur
      invariant node != null ==> Walk(t, ts, cs) == Onto(at, Walk(cur, rest, cs))
      decreases n - p
    {
      p := p + 1;
      NextToken(pointer, p, rest);
      ghost var tok, tail := rest[0], PathText(rest[1..]);
      NodesExist(cur); UnderExist(cur.kids);
      var q := SkipToken(pointer, p, tok, tail);
      ghost var i;
      node, i := FollowToken(node, pointer, p, cs, cur, tok, tail);
      p := q;
      if node != null {
        SubStep(t, at, i);
        OntoStep(at, i, Walk(cur.kids[i], rest[1..], cs));
        cur, at, rest := cur.kids[i], at + [i], rest[1..];
      }
    }
    if node != null {
      PathEnds(pointer, p, rest);
      assert at + [] == at;
    }
  }
}
