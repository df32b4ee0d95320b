// JSON Merge Patch on trees of nodes in memory, the target being changed in place
// (component/cJSON/cJSON_Utils.c, merge_patch).
module JsonMergeTree {
  import opened JsonValues
  import opened JsonSort
  import opened JsonCompare
  import opened JsonMembers
  import opened JsonMerge
  import opened JsonTrees
  import opened JsonKids
  import opened JsonGraft
  import opened JsonDetach
  import opened JsonInPlace

  // The nodes of a target, if there is one, and those below it.
  ghost function Held(target: Item?, tt: Tree): set<Item> {
    if target == null then {} else Nodes(tt)
  }

  ghost function Below(target: Item?, tt: Tree): set<Item> {
    if target == null then {} else Under(tt.kids)
  }

  ghost function Self(target: Item?): set<Item> {
    if target == null then {} else {target}
  }

  ghost function TargetValue(target: Item?, tt: Tree, cs: bool): Value {
    if target == null then VNull else MeaningOf(tt, cs)
  }

  // A target: none, or a tree on its own away from the patch.
  ghost predicate IsTarget(target: Item?, tt: Tree, tp: Tree, cs: bool)
    reads Held(target, tt)`child, Below(target, tt)`next, Below(target, tt)`prev, Self(target)`next, Self(target)`prev
  {
    target != null ==> tt.node == target && Stands(tt) && Unlinked(target) && TidyTree(tt, cs) && Nodes(tt) !! Nodes(tp)
  }

  // One member of the patch, of which `k` is the tree, merged into an object.
  method MergeMember(target: Item, child: Item, cs: bool, ghost t: Tree, ghost k: Tree) returns (ghost u: Tree)
    requires IsTarget(target, t, k, cs) && target.value.Object?
    requires k.node == child && Linked(k) && TidyTree(k, cs)
    modifies Nodes(t)`child, Under(t.kids)`next, Under(t.kids)`prev
    ensures u.node == target && Stands(u) && TidyTree(u, cs) && MeaningOf(t, cs).VObject?
    ensures forall y :: y in Nodes(u) && y !in Nodes(t) ==> fresh(y)
    ensures var f := MeaningOf(t, cs).fields;
            var key := Fold(child.key, cs);
            MeaningOf(u, cs) == if MeaningOf(k, cs) == VNull then VObject(Without(f, key))
                                else VObject(Without(f, key)[key := MergeSpec(Get(f, key), MeaningOf(k, cs))])
    decreases k, 2
  {
    hide Separate, Linked, Nodes, Under, TidyTree, MeaningOf, MergeSpec, Fold;
    NodesExist(t); UnderExist(t.kids); NodesExist(k); UnderExist(k.kids);
    TopsInside(t);
    TopsInside(k);
    IsNull(k, cs);
    var replace_me;
    ghost var old_tree;
    replace_me, u, old_tree := TakeNamed(target, child.key, cs, t);
    if child.value.Null? {
      return;
    }
    NodesExist(u); UnderExist(u.kids);
    TopsInside(u);
    TopsInside(old_tree);
    var replacement;
    ghost var v;
    replacement, v := MergePatch(replace_me, child, cs, old_tree, k);
    TopsInside(v);
    u, v := AddNamed(target, replacement, child.key, cs, u, v);
  }

  lemma IsNull(k: Tree, cs: bool)
    ensures k.node.value.Null? <==> MeaningOf(k, cs) == VNull
  {
    NullMeaning(JsonOf(k, cs));
  }

  // merge_patch: the target, or what replaces it.
  method MergePatch(target: Item?, patch: Item, cs: bool, ghost tt: Tree, ghost tp: Tree)
    returns (r: Item, ghost u: Tree)
    requires IsTarget(target, tt, tp, cs) && tp.node == patch && Linked(tp) && TidyTree(tp, cs)
    modifies Held(target, tt)`child, Below(target, tt)`next, Below(target, tt)`prev
    ensures u.node == r && Stands(u) && Unlinked(r) && TidyTree(u, cs)
    ensures MeaningOf(u, cs) == MergeSpec(TargetValue(target, tt, cs), MeaningOf(tp, cs))
    ensures forall y :: y in Nodes(u) && y !in Held(target, tt) ==> fresh(y)
    decreases tp, 1
  {
    hide Separate, Linked, Nodes, Under, TidyTree, MeaningOf, MergeSpec, SameValue;
    NodesExist(tp); UnderExist(tp.kids);
    if target != null { NodesExist(tt); UnderExist(tt.kids); }
    if !patch.value.Object? {
      r, u := Duplicate(patch, patch.key, tp);
      SameMeaning(u, tp);
      ScalarMerge(tp, TargetValue(target, tt, cs), cs);
      return;
    }
    TopsInside(tp);
    ghost var t;
    r, t := ObjectTarget(target, patch.key, cs, tt);
    TopsInside(t);
    u := MergeMembers(r, patch, cs, t, tp);
    ObjectMerge(tp, TargetValue(target, tt, cs), cs);
  }

  // The members of the patch in turn.
  method MergeMembers(target: Item, patch: Item, cs: bool, ghost t: Tree, ghost tp: Tree) returns (ghost u: Tree)
    requires t.node == target && target.value.Object? && Stands(t) && Unlinked(target) && TidyTree(t, cs)
    requires Nodes(t) !! Nodes(tp)
    requires tp.node == patch && patch.value.Object? && Linked(tp) && TidyTree(tp, cs)
    modifies Nodes(t)`child, Under(t.kids)`next, Under(t.kids)`prev
    ensures u.node == target && Stands(u) && Unlinked(target) && TidyTree(u, cs)
    ensures MeaningOf(t, cs).VObject? && MeaningOf(tp, cs).VObject?
    ensures MeaningOf(u, cs) == VObject(MergeFields(MeaningOf(t, cs).fields, MeaningOf(tp, cs).fields))
    ensures forall y :: y in Nodes(u) && y !in Nodes(t) ==> fresh(y)
    decreases tp, 0
  {
    hide Separate, Linked, Nodes, Under, TidyTree, MeaningOf, MergeSpec, MergeFields, Fields, JsonOf, Fold;
    NodesExist(t); UnderExist(t.kids); NodesExist(tp); UnderExist(tp.kids);
    TopsInside(tp);
    KidsUnder(tp.kids);
    OwnNodes(t);
    SeparateParts(t);
    ObjectTree(t, cs);
    PatchObject(tp, cs);
    ghost var ms, f := PairsOf(tp.kids, cs), MeaningOf(t, cs).fields;
    MergeNothing(f);
    assert ms[..0] == [];
    NoMembers();
    u := t;
    ChildAt(tp, 0);
    var patch_child := patch.child;
    ghost var i := 0;
    while patch_child != null
      invariant i <= |ms| && patch_child == if i < |tp.kids| then tp.kids[i].node else null
      invariant Linked(tp) && u.node == target && Stands(u) && Unlinked(target) && TidyTree(u, cs)
      invariant MeaningOf(u, cs) == VObject(MergeFields(f, Fields(ms[..i])))
      invariant Nodes(u) !! Nodes(tp) && forall y :: y in Nodes(u) && y !in Nodes(t) ==> fresh(y)
      decreases |ms| - i
    {
      NodesExist(u); UnderExist(u.kids);
      PrefixMembers(ms, i);
      ChildAt(tp, i);
      MergeMore(f, Fields(ms[..i]), Fold(patch_child.key, cs), MeaningOf(tp.kids[i], cs));
      SeparateParts(u);
      OwnNodes(u);
      assert forall y :: y in Under(u.kids) ==> fresh(y) || y in Under(t.kids);
      u := MergeMember(target, patch_child, cs, u, tp.kids[i]);
      ChildAt(tp, i);
      patch_child, i := patch_child.next, i + 1;
    }
    assert ms[..i] == ms;
  }

  lemma ScalarMerge(tp: Tree, v: Value, cs: bool)
    requires !tp.node.value.Object?
    ensures MergeSpec(v, MeaningOf(tp, cs)) == MeaningOf(tp, cs)
  {
    NotObject(JsonOf(tp, cs), v);
  }

  lemma PatchObject(tp: Tree, cs: bool)
    requires tp.node.value.Object? && TidyTree(tp, cs)
    ensures TidyMembers(PairsOf(tp.kids, cs)) && MeaningOf(tp, cs) == VObject(Fields(PairsOf(tp.kids, cs)))
    ensures forall i :: 0 <= i < |tp.kids|
              ==> PairsOf(tp.kids, cs)[i].key == Fold(tp.kids[i].node.key, cs) && TidyTree(tp.kids[i], cs)
    ensures forall i :: 0 <= i < |tp.kids| ==> Meaning(PairsOf(tp.kids, cs)[i].value) == MeaningOf(tp.kids[i], cs)
  {
    hide Tidy, Meaning, Fields;
    ObjectTree(tp, cs);
  }

  lemma ObjectMerge(tp: Tree, v: Value, cs: bool)
    requires tp.node.value.Object? && TidyTree(tp, cs)
    ensures MeaningOf(tp, cs).VObject?
    ensures MergeSpec(v, MeaningOf(tp, cs)) == VObject(MergeFields(FieldsOf(v), MeaningOf(tp, cs).fields))
  {
    hide Fields;
    PatchObject(tp, cs);
    MergeFieldsAt(FieldsOf(v), MeaningOf(tp, cs).fields);
    if !v.VObject? { NoTarget(v, MeaningOf(tp, cs)); }
  }

  // The object merged into: the target, or a new one for what is not an object.
  method ObjectTarget(target: Item?, key: Text, cs: bool, ghost tt: Tree) returns (r: Item, ghost u: Tree)
    requires target != null ==> tt.node == target && Stands(tt) && Unlinked(target) && TidyTree(tt, cs)
    ensures u.node == r && r.value.Object? && Stands(u) && Unlinked(r) && TidyTree(u, cs)
    ensures MeaningOf(u, cs) == VObject(FieldsOf(TargetValue(target, tt, cs)))
    ensures if target != null && target.value.Object? then r == target && u == tt else fresh(Nodes(u)) && r.key == key
  {
    if target != null && target.value.Object? {
      ObjectTree(tt, cs);
      return target, tt;
    }
    if target != null { NoObject(tt, cs); }
    r := new Item(key, Object([]));
    u := Tree(r, []);
    OnlyNode(r);
    EmptyObject(u, cs);
  }

  lemma NoObject(t: Tree, cs: bool)
    requires !t.node.value.Object?
    ensures !MeaningOf(t, cs).VObject?
  {
  }

  lemma EmptyObject(u: Tree, cs: bool)
    requires u.kids == [] && u.node.value.Object?
    ensures MeaningOf(u, cs) == VObject(map[]) && TidyTree(u, cs)
  {
    assert PairsOf(u.kids, cs) == [];
    NoMembers();
    MeaningObject([]);
  }
}
