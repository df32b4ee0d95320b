// Generating JSON Merge Patch documents from trees of nodes in memory
// (component/cJSON/cJSON_Utils.c, generate_merge_patch), and the round trip.
module JsonMergeDiff {
  import opened JsonValues
  import opened JsonSort
  import opened JsonCompare
  import opened JsonMembers
  import opened JsonMerge
  import opened JsonTrees
  import opened JsonKids
  import opened JsonGraft
  import opened JsonDetach
  import opened JsonInPlace
  import opened JsonMergeTree
  import opened JsonNames

  // ---- Trees whose names stand in one order with and without case ----

  ghost predicate Fine(t: Tree, names: set<Text>) {
    Orderly(names) && TidyTree(t, true) && NamesIn(MeaningOf(t, true), names)
  }

  // The members of such an object are of the kind.
  lemma FineKid(t: Tree, i: nat, names: set<Text>)
    requires Fine(t, names) && t.node.value.Object? && i < |t.kids|
    ensures Fine(t.kids[i], names) && t.kids[i].node.key in names
  {
    hide MeaningOf, TidyTree, Orderly;
    MemberTree(t, i, true);
  }

  lemma FineKept(t: Tree, u: Tree, cs: bool, names: set<Text>)
    requires Fine(t, names) && Kept(t, u, cs)
    ensures Fine(u, names)
  {
    hide MeaningOf, TidyTree;
    assert Same(t, u, true);
  }

  lemma FineSame(t: Tree, u: Tree, names: set<Text>)
    requires Fine(t, names) && SameValue(u, t)
    ensures Fine(u, names) && MeaningOf(u, true) == MeaningOf(t, true)
  {
  }

  // The members of an object under their names.
  ghost function Members(t: Tree): seq<Member> {
    PairsOf(t.kids, true)
  }

  lemma FineSorted(t: Tree, cs: bool, names: set<Text>)
    requires Fine(t, names) && t.node.value.Object? && Ascending(PairsOf(t.kids, cs))
    ensures Ascending(Members(t))
  {
    hide MeaningOf, TidyTree, StrCmp, JsonOf, Lower, NamesIn;
    forall i, j | 0 <= i < j < |t.kids| ensures StrCmp(Members(t)[i].key, Members(t)[j].key) < 0 {
      FineKid(t, i, names);
      FineKid(t, j, names);
      assert PairsOf(t.kids, cs)[i].key == Fold(Members(t)[i].key, cs)
             && PairsOf(t.kids, cs)[j].key == Fold(Members(t)[j].key, cs);
    }
  }

  lemma FineGrown(t: Tree, v: Tree, names: set<Text>)
    requires Fine(t, names) && t.node.value.Object? && Fine(v, names) && v.node.key in names
    requires MeaningOf(t, true).VObject? ==> v.node.key !in MeaningOf(t, true).fields
    ensures Fine(Grown(t, |t.kids|, v), names)
    ensures Members(Grown(t, |t.kids|, v)) == Members(t) + [Member(v.node.key, JsonOf(v, true))]
  {
    hide MeaningOf, TidyTree, JsonOf, Orderly;
    GrownObject(t, v, true);
  }

  lemma FineEmpty(u: Tree, names: set<Text>)
    requires u.kids == [] && u.node.value.Object? && Orderly(names)
    ensures Fine(u, names) && Members(u) == []
  {
    hide Orderly;
    EmptyObject(u, true);
  }

  lemma FineNull(u: Tree, names: set<Text>)
    requires u.node.value.Null? && Orderly(names)
    ensures Fine(u, names) && JsonOf(u, true) == Null
  {
    hide Orderly;
  }

  lemma FineOrder(t: Tree, names: set<Text>)
    requires Fine(t, names)
    ensures Orderly(names)
  {
  }

  // ---- The patch as it grows ----

  ghost predicate Patching(patch: Item, u: Tree, x: seq<Member>, y: seq<Member>, seen: set<Text>, names: set<Text>)
    reads Nodes(u)`child, Under(u.kids)`next, Under(u.kids)`prev, patch`next, patch`prev
  {
    && u.node == patch && patch.value.Object? && Stands(u) && Unlinked(patch) && Fine(u, names)
    && Settling(x, y, Members(u), seen)
  }

  // One more member.
  method PutIn(patch: Item, item: Item, key: Text, ghost u: Tree, ghost v: Tree, ghost x: seq<Member>,
               ghost y: seq<Member>, ghost seen: set<Text>, ghost names: set<Text>)
    returns (ghost w: Tree)
    requires Patching(patch, u, x, y, seen, names) && Ready(item, v, u) && Fine(v, names) && item.key == key
    requires key in names
    requires key !in seen && Settling(x, y, Members(u) + [Member(key, JsonOf(v, true))], seen + {key})
    modifies patch`child, item`prev, Under(u.kids)`next
    ensures Patching(patch, w, x, y, seen + {key}, names) && Nodes(w) == Nodes(u) + Nodes(v)
  {
    hide Separate, Linked, Nodes, Under, TidyTree, MeaningOf, JsonOf, Fold, Lower, Settling, Fine;
    NodesExist(u); UnderExist(u.kids); NodesExist(v); UnderExist(v.kids);
    TopsInside(u);
    TopsInside(v);
    SeparateParts(u);
    NotYet(u, x, y, seen, key, names);
    AddKid(patch, item, u, v);
    FineGrown(u, v, names);
    GrownNodes(u, |u.kids|, v);
    w := Grown(u, |u.kids|, v);
  }

  lemma NotYet(u: Tree, x: seq<Member>, y: seq<Member>, seen: set<Text>, key: Text, names: set<Text>)
    requires Fine(u, names) && u.node.value.Object? && Settling(x, y, Members(u), seen) && key !in seen
    ensures MeaningOf(u, true).VObject? && key !in MeaningOf(u, true).fields
  {
    hide Tidy, Meaning, MergeSpec, Fields, KeySet, Settled;
    ObjectTree(u, true);
    FieldsKeys(Members(u));
  }

  // ---- The steps of the walk ----

  lemma SmallerKid(t: Tree, i: nat)
    requires Separate(t) && i < |t.kids|
    ensures Nodes(t.kids[i]) < Nodes(t) && |Nodes(t.kids[i])| < |Nodes(t)|
  {
    hide Under;
    KidsUnder(t.kids);
    OwnNodes(t);
    Fewer(Nodes(t.kids[i]), Nodes(t));
  }

  lemma Fewer<T>(a: set<T>, b: set<T>)
    requires a < b
    ensures |a| < |b|
  {
    assert b == a + (b - a);
    var x :| x in b && x !in a;
    assert |b - a| > 0;
  }

  // A walk past a child that stays as it is.
  lemma WalkOver(s: Tree, t: Tree, i: nat, x: Item?, cs: bool)
    requires Walking(s, t, i, x, cs) && i < |s.kids| && i < |t.kids|
    ensures x != null && Walking(s, t, i + 1, x.next, cs)
  {
    hide Separate, Alike;
    NextOf(Tops(t.kids), i);
  }

  // The child of a walk, under its name.
  lemma WalkMember(s: Tree, t: Tree, i: nat, x: Item?, cs: bool, names: set<Text>)
    requires Walking(s, t, i, x, cs) && i < |s.kids| && Fine(s, names) && s.node.value.Object?
    ensures i < |t.kids| && x != null && t.kids[i] == s.kids[i] && x == s.kids[i].node
    ensures Members(s)[i] == Member(x.key, JsonOf(s.kids[i], true)) && Fine(s.kids[i], names)
    ensures x.key in names && Meaning(Members(s)[i].value) == MeaningOf(s.kids[i], true) && x in Nodes(s)
  {
    hide Separate, JsonOf, Fine, Lower, Same, TidyTree, Meaning;
    KidsUnder(s.kids);
    OwnNodes(s);
    assert |Tops(t.kids)| == |Tops(s.kids)|;
    FineKid(s, i, names);
  }

  // What the patch says of a child both sides have, if it has to say something.
  ghost predicate Led(q: Item?, v: Tree, key: Text, x: Value, y: Value, names: set<Text>)
    reads Nodes(v)`child, Under(v.kids)`next, Under(v.kids)`prev
    reads if q == null then {} else {q}`next, if q == null then {} else {q}`prev
  {
    q != null && v.node == q && Stands(v) && Unlinked(q) && q.key == key && Fine(v, names)
    && (MergeSpec(x, MeaningOf(v, true)) == y <==> NullsKept(x, y))
    && (MeaningOf(v, true) == VNull ==> y == VNull) && Spare(x, y, MeaningOf(v, true))
  }

  // Kept in one mode is kept in every mode the tree is tidy in.
  lemma KeptIn(t: Tree, u: Tree, c: bool, cs: bool)
    requires Kept(t, u, c) && TidyTree(t, cs)
    ensures Kept(t, u, cs)
  {
    hide TidyTree, MeaningOf, Rearranged;
    assert Same(t, u, cs);
  }

  // A tree put back at its place, of the same nodes.
  lemma PutAgain(t: Tree, i: nat, u: Tree, cs: bool)
    requires Separate(t) && i < |t.kids| && Kept(t.kids[i], u, cs)
    ensures Nodes(Put(t, i, u)) == Nodes(t) && Under(Put(t, i, u).kids) == Under(t.kids) && Put(t, i, u).kids[i] == u
    ensures forall w :: Put(Put(t, i, u), i, w) == Put(t, i, w)
  {
    hide Separate, Nodes, Under, TidyTree, MeaningOf, Same;
    PutKid(t, i, u);
    UnderAgain(t, Put(t, i, u));
    forall w ensures Put(Put(t, i, u), i, w) == Put(t, i, w) { assert t.kids[i := u][i := w] == t.kids[i := w]; }
  }

  // The recursive call for a child of each side, which ignores case whatever the variant.
  method GenerateKid(x: Item, y: Item, ghost i: nat, ghost j: nat, ghost ta: Tree, ghost tb: Tree,
                     ghost names: set<Text>)
    returns (q: Item?, ghost v: Tree, ghost ua: Tree, ghost ub: Tree)
    requires Linked(ta) && Linked(tb) && Separate(ta) && Separate(tb) && Nodes(ta) !! Nodes(tb)
    requires i < |ta.kids| && j < |tb.kids| && x == ta.kids[i].node && y == tb.kids[j].node
    requires Fine(ta.kids[i], names) && Fine(tb.kids[j], names)
    modifies Nodes(ta)`child, Nodes(tb)`child, Under(ta.kids)`next, Under(ta.kids)`prev, Under(tb.kids)`next,
             Under(tb.kids)`prev
    ensures Kept(ta.kids[i], ua, false) && Separate(Put(ta, i, ua)) && Linked(Put(ta, i, ua))
    ensures Kept(tb.kids[j], ub, false) && Separate(Put(tb, j, ub)) && Linked(Put(tb, j, ub))
    ensures MeaningOf(ta.kids[i], true) != MeaningOf(tb.kids[j], true) ==> q != null
    ensures q != null ==> fresh(Nodes(v))
                          && Led(q, v, y.key, MeaningOf(ta.kids[i], true), MeaningOf(tb.kids[j], true), names)
    decreases |Nodes(ta.kids[i])|, 3
  {
    hide Linked, Separate, Nodes, Under, TidyTree, MeaningOf, JsonOf, Around, Fine, MergeSpec, NullsKept, Spare, Same;
    AroundLinked(ta, i);
    AroundLinked(tb, j);
    OutsideKid(ta, i);
    OutsideKid(tb, j);
    KidInside(ta, i);
    KidInside(tb, j);
    NodesExist(ta); UnderExist(ta.kids); NodesExist(tb); UnderExist(tb.kids);
    q, v, ua, ub := GenerateMergePatch(x, y, y.key, false, ta.kids[i], tb.kids[j], names);
    assert Around(ta, i);
    assert Around(tb, j);
    AroundPut(ta, i, ua);
    AroundPut(tb, j, ub);
    AroundLinked(Put(ta, i, ua), i);
    AroundLinked(Put(tb, j, ub), j);
  }

  // A name on both sides: the values compared, and where they differ a patch made.
  method Both(x: Item, y: Item, cs: bool, ghost i: nat, ghost j: nat, ghost sa: Tree, ghost sb: Tree, ghost ta: Tree,
              ghost tb: Tree, ghost names: set<Text>)
    returns (same: bool, q: Item?, ghost v: Tree, ghost ua: Tree, ghost ub: Tree)
    requires Walking(sa, ta, i, x, cs) && Walking(sb, tb, j, y, cs) && i < |sa.kids| && j < |sb.kids|
    requires Nodes(sa) !! Nodes(sb) && Fine(sa.kids[i], names) && Fine(sb.kids[j], names)
    modifies Nodes(ta)`child, Nodes(tb)`child, Under(ta.kids)`next, Under(ta.kids)`prev, Under(tb.kids)`next,
             Under(tb.kids)`prev
    ensures same <==> MeaningOf(sa.kids[i], true) == MeaningOf(sb.kids[j], true)
    ensures !same ==> fresh(Nodes(v))
                      && Led(q, v, y.key, MeaningOf(sa.kids[i], true), MeaningOf(sb.kids[j], true), names)
    ensures Walking(sa, ua, i + 1, x.next, cs) && Walking(sb, ub, j + 1, y.next, cs)
    decreases |Nodes(sa.kids[i])|, 4
  {
    hide Linked, Separate, Nodes, Under, TidyTree, MeaningOf, JsonOf, MergeSpec, NullsKept, Spare, Same, Led, Kept;
    ghost var u, w;
    q, v := null, sa;
    BothTidy(sa.kids[i], cs, names);
    BothTidy(sb.kids[j], cs, names);
    SameEither(sa.kids[i], sb.kids[j], cs, names);
    same, u, w := CompareKid(x, y, cs, i, j, ta, tb);
    if !same {
      FineKept(sa.kids[i], u, cs, names);
      FineKept(sb.kids[j], w, cs, names);
      KeptNodes(sa.kids[i], u, cs, names);
      KeptNodes(sb.kids[j], w, cs, names);
      PutAgain(ta, i, u, cs);
      PutAgain(tb, j, w, cs);
      ghost var u', w';
      NodesExist(ta); UnderExist(ta.kids); NodesExist(tb); UnderExist(tb.kids);
      q, v, u', w' := GenerateKid(x, y, i, j, Put(ta, i, u), Put(tb, j, w), names);
      KeptAgain(sa.kids[i], u, u', cs);
      KeptAgain(sb.kids[j], w, w', cs);
      assert Put(Put(ta, i, u), i, u') == Put(ta, i, u') && Put(Put(tb, j, w), j, w') == Put(tb, j, w');
      u, w := u', w';
    }
    WalkOn(sa, ta, i, u, cs);
    WalkOn(sb, tb, j, w, cs);
    ua, ub := Put(ta, i, u), Put(tb, j, w);
  }

  lemma BothTidy(t: Tree, cs: bool, names: set<Text>)
    requires Fine(t, names)
    ensures TidyTree(t, cs)
  {
    hide TidyTree, MeaningOf, Orderly;
    TreeLowers(t, names);
  }

  // Two trees mean the same in either reading or in none.
  lemma SameEither(a: Tree, b: Tree, cs: bool, names: set<Text>)
    requires Fine(a, names) && Fine(b, names)
    ensures MeaningOf(a, cs) == MeaningOf(b, cs) <==> MeaningOf(a, true) == MeaningOf(b, true)
  {
    hide TidyTree, MeaningOf, Orderly, Lowers, NamesIn;
    TreeLowers(a, names);
    TreeLowers(b, names);
    if MeaningOf(a, true) == MeaningOf(b, true) {
      LowersSame(MeaningOf(a, true), MeaningOf(a, false), MeaningOf(b, false));
    }
    if MeaningOf(a, false) == MeaningOf(b, false) {
      LowersOnce(MeaningOf(a, true), MeaningOf(b, true), MeaningOf(a, false), names);
    }
  }

  lemma KeptNodes(t: Tree, u: Tree, cs: bool, names: set<Text>)
    requires Kept(t, u, cs) && Fine(t, names)
    ensures u.node == t.node && Nodes(u) == Nodes(t) && MeaningOf(u, true) == MeaningOf(t, true)
  {
    hide TidyTree, MeaningOf, Nodes, Separate;
    assert Same(t, u, true);
  }

  lemma KeptAgain(t: Tree, u: Tree, w: Tree, cs: bool)
    requires Kept(t, u, cs) && Kept(u, w, false)
    ensures Kept(t, w, cs)
  {
    hide TidyTree, MeaningOf, Nodes, Separate, Rearranged;
    assert TidyTree(u, cs);
    KeptIn(u, w, false, cs);
    KeptTwice(t, u, w, cs);
  }

  // generate_merge_patch: nothing exactly for equal objects; otherwise a patch that leads
  // from one to the other, unless that would need a new null. The objects visited are left
  // sorted.
  method GenerateMergePatch(from: Item, to: Item, key: Text, cs: bool, ghost tf: Tree, ghost tt: Tree,
                            ghost names: set<Text>)
    returns (r: Item?, ghost u: Tree, ghost uf: Tree, ghost ut: Tree)
    requires tf.node == from && tt.node == to && Stands(tf) && Stands(tt) && Nodes(tf) !! Nodes(tt)
    requires Fine(tf, names) && Fine(tt, names)
    modifies Nodes(tf)`child, Nodes(tt)`child, Under(tf.kids)`next, Under(tf.kids)`prev, Under(tt.kids)`next,
             Under(tt.kids)`prev
    ensures Kept(tf, uf, cs) && Kept(tt, ut, cs) && Linked(uf) && Linked(ut)
    ensures r == null <==> from.value.Object? && to.value.Object? && MeaningOf(tf, true) == MeaningOf(tt, true)
    ensures r != null ==> fresh(Nodes(u)) && Led(r, u, key, MeaningOf(tf, true), MeaningOf(tt, true), names)
    decreases |Nodes(tf)|, 2
  {
    hide Linked, Separate, Nodes, Under, TidyTree, MeaningOf, JsonOf, MergeSpec, NullsKept, Spare, Same, SameValue;
    uf, ut, u, r := tf, tt, tf, null;
    BothTidy(tf, cs, names);
    BothTidy(tt, cs, names);
    KeptItself(tf, cs);
    KeptItself(tt, cs);
    if !to.value.Object? || !from.value.Object? {
      NodesExist(tf); UnderExist(tf.kids); NodesExist(tt); UnderExist(tt.kids);
      r, u := Duplicate(to, key, tt);
      FineSame(tt, u, names);
      DuplicateLeads(tf, tt);
      return;
    }
    r, u, uf, ut := GenerateObjects(from, to, key, cs, tf, tt, names);
  }

  lemma DuplicateLeads(tf: Tree, tt: Tree)
    requires !tt.node.value.Object? || !tf.node.value.Object?
    ensures MergeSpec(MeaningOf(tf, true), MeaningOf(tt, true)) == MeaningOf(tt, true)
            <==> NullsKept(MeaningOf(tf, true), MeaningOf(tt, true))
    ensures Spare(MeaningOf(tf, true), MeaningOf(tt, true), MeaningOf(tt, true))
  {
    hide MergeSpec, NullsKept, Meaning;
    NotBothObjects(tf, tt);
    DuplicateTo(JsonOf(tf, true), JsonOf(tt, true));
    OnlyIf(JsonOf(tf, true), JsonOf(tt, true), JsonOf(tt, true));
  }

  lemma NotBothObjects(tf: Tree, tt: Tree)
    requires !tt.node.value.Object? || !tf.node.value.Object?
    ensures !MeaningOf(tt, true).VObject? || !MeaningOf(tf, true).VObject?
  {
  }

  // Two sorted member lists on the way, and whose turn it is.
  ghost predicate Turn(x: seq<Member>, y: seq<Member>, i: nat, j: nat, diff: int) {
    && TidyMembers(x) && TidyMembers(y) && Ascending(x) && Ascending(y) && Aligned(x, y, i, j)
    && i <= |x| && j <= |y| && (i < |x| || j < |y|) && (diff < 0 <==> Diff(x, y, i, j) < 0)
    && (diff > 0 <==> Diff(x, y, i, j) > 0)
  }

  // A name `from` alone has is to go.
  method Drop(patch: Item, key: Text, ghost u: Tree, ghost x: seq<Member>, ghost y: seq<Member>, ghost i: nat,
              ghost j: nat, ghost diff: int, ghost names: set<Text>)
    returns (ghost w: Tree)
    requires Turn(x, y, i, j, diff) && diff < 0 && Patching(patch, u, x, y, Seen(x, y, i, j), names)
    requires i < |x| ==> key == x[i].key && key in names
    modifies patch`child, Under(u.kids)`next
    ensures i < |x| && Aligned(x, y, i + 1, j) && Patching(patch, w, x, y, Seen(x, y, i + 1, j), names)
    ensures forall n :: n in Nodes(w) && n !in Nodes(u) ==> fresh(n)
  {
    hide Separate, Linked, Nodes, Under, Settling, Fine, Aligned, Seen, Ascending, TidyMembers, StrCmp, Lower, JsonOf;
    NodesExist(u); UnderExist(u.kids);
    StepX(x, y, i, j);
    SeenMore(x, y, i, j);
    Removal(x, y, Members(u), Seen(x, y, i, j), i);
    var item := new Item(key, Null);
    ghost var v := Tree(item, []);
    OnlyNode(item);
    FineOrder(u, names);
    FineNull(v, names);
    w := PutIn(patch, item, key, u, v, x, y, Seen(x, y, i, j), names);
  }

  // A name `to` alone has is brought in.
  method Bring(patch: Item, child: Item, ghost u: Tree, ghost k: Tree, ghost x: seq<Member>, ghost y: seq<Member>,
               ghost i: nat, ghost j: nat, ghost diff: int, ghost names: set<Text>)
    returns (ghost w: Tree)
    requires Turn(x, y, i, j, diff) && diff > 0 && Patching(patch, u, x, y, Seen(x, y, i, j), names)
    requires k.node == child && Linked(k) && Fine(k, names) && child.key in names
    requires j < |y| ==> y[j] == Member(child.key, JsonOf(k, true))
    modifies patch`child, Under(u.kids)`next
    ensures j < |y| && Aligned(x, y, i, j + 1) && Patching(patch, w, x, y, Seen(x, y, i, j + 1), names)
    ensures forall n :: n in Nodes(w) && n !in Nodes(u) ==> fresh(n)
  {
    hide Separate, Linked, Nodes, Under, Settling, Fine, Aligned, Seen, Ascending, TidyMembers, StrCmp, Lower, JsonOf;
    NodesExist(u); UnderExist(u.kids);
    StepY(x, y, i, j);
    SeenMore(x, y, i, j);
    Addition(x, y, Members(u), Seen(x, y, i, j), j);
    var item;
    ghost var v;
    item, v := Duplicate(child, child.key, k);
    TopsInside(v);
    FineSame(k, v, names);
    w := PutIn(patch, item, child.key, u, v, x, y, Seen(x, y, i, j), names);
  }

  // A name both have: nothing for equal values, else the patch of them.
  method Settle(patch: Item, same: bool, q: Item?, key: Text, ghost u: Tree, ghost v: Tree, ghost x: seq<Member>,
                ghost y: seq<Member>, ghost i: nat, ghost j: nat, ghost diff: int, ghost names: set<Text>)
    returns (ghost w: Tree)
    requires Turn(x, y, i, j, diff) && diff == 0 && Patching(patch, u, x, y, Seen(x, y, i, j), names) && key in names
    requires i < |x| && j < |y| && x[i].key == y[j].key == key
    requires same <==> Meaning(x[i].value) == Meaning(y[j].value)
    requires !same ==> Led(q, v, key, Meaning(x[i].value), Meaning(y[j].value), names) && Nodes(v) !! Nodes(u)
    modifies patch`child, if same then {} else {q}`prev, Under(u.kids)`next
    ensures Aligned(x, y, i + 1, j + 1) && Patching(patch, w, x, y, Seen(x, y, i + 1, j + 1), names)
    ensures Nodes(w) == if same then Nodes(u) else Nodes(u) + Nodes(v)
  {
    hide Separate, Linked, Nodes, Under, Settling, Aligned, Seen, Ascending, TidyMembers, StrCmp, Lower, JsonOf,
         Meaning, MergeSpec, NullsKept, Spare, SameAt;
    StepBoth(x, y, i, j);
    SeenMore(x, y, i, j);
    AtBoth(x, y, i, j);
    w := u;
    if same {
      SameHere(x, y, key);
      SettleNone(x, y, Members(u), Seen(x, y, i, j), key);
    } else {
      SettleChange(x, y, Members(u), Seen(x, y, i, j), i, j, JsonOf(v, true));
      w := PutIn(patch, q, key, u, v, x, y, Seen(x, y, i, j), names);
    }
  }

  lemma NothingSaid(x: seq<Member>, y: seq<Member>, u: Tree, names: set<Text>)
    requires Settling(x, y, Members(u), Seen(x, y, |x|, |y|)) && Fine(u, names) && u.node.value.Object?
    requires TidyMembers(x) && TidyMembers(y)
    ensures u.kids == [] <==> Fields(x) == Fields(y)
    ensures MergeSpec(VObject(Fields(x)), MeaningOf(u, true)) == VObject(Fields(y))
            <==> NullsKept(VObject(Fields(x)), VObject(Fields(y)))
    ensures MeaningOf(u, true) != VNull && Spare(VObject(Fields(x)), VObject(Fields(y)), MeaningOf(u, true))
  {
    hide MergeSpec, Settled, Meaning, Fields, KeySet, NullsKept, NullsStay, Settling, Tidy;
    Arrived(x, y, Members(u));
    ObjectTree(u, true);
    MeaningObject(x);
    MeaningObject(y);
    OnlyIf(Object(x), Object(y), JsonOf(u, true));
  }

  // The members of a sorted object in memory.
  lemma SortedMembers(t: Tree, s: Tree, cs: bool, names: set<Text>)
    requires Fine(t, names) && Separate(t) && t.node.value.Object? && Kept(t, s, cs) && Ascending(PairsOf(s.kids, cs))
    ensures Fine(s, names) && Separate(s) && TidyMembers(Members(s)) && Ascending(Members(s))
    ensures |Members(s)| == |s.kids|
    ensures MeaningOf(t, true) == VObject(Fields(Members(s))) && Under(s.kids) == Under(t.kids)
  {
    hide Meaning, Tidy, Fields, KeySet, StrCmp, Separate, Nodes, Under, JsonOf;
    FineKept(t, s, cs, names);
    FineSorted(s, cs, names);
    ObjectTree(s, true);
    KeptNodes(t, s, cs, names);
    UnderAgain(t, s);
  }

  // The next step: the name that is behind, or the one both have.
  method Advance(patch: Item, x0: Item?, y0: Item?, cs: bool, ghost i: nat, ghost j: nat, ghost sa: Tree,
                 ghost sb: Tree, ghost ta: Tree, ghost tb: Tree, ghost u0: Tree, ghost names: set<Text>)
    returns (x: Item?, y: Item?, ghost i': nat, ghost j': nat, ghost ua: Tree, ghost ub: Tree, ghost u: Tree)
    requires Walking(sa, ta, i, x0, cs) && Walking(sb, tb, j, y0, cs) && Nodes(sa) !! Nodes(sb) && Fine(sa, names)
    requires Fine(sb, names)
    requires sa.node.value.Object? && sb.node.value.Object? && Aligned(Members(sa), Members(sb), i, j)
    requires TidyMembers(Members(sa)) && Ascending(Members(sa)) && TidyMembers(Members(sb)) && Ascending(Members(sb))
    requires i <= |sa.kids| && j <= |sb.kids| && (x0 != null || y0 != null)
    requires (x0 == null <==> i == |sa.kids|) && (y0 == null <==> j == |sb.kids|)
    requires Patching(patch, u0, Members(sa), Members(sb), Seen(Members(sa), Members(sb), i, j), names)
    requires Nodes(u0) !! Nodes(ta) && Nodes(u0) !! Nodes(tb) && Nodes(ta) == Nodes(sa) && Nodes(tb) == Nodes(sb)
    modifies Nodes(ta)`child, Nodes(tb)`child, Under(ta.kids)`next, Under(ta.kids)`prev, Under(tb.kids)`next,
             Under(tb.kids)`prev, patch`child, Under(u0.kids)`next
    ensures i' <= |sa.kids| && j' <= |sb.kids| && i' + j' > i + j && i' >= i && j' >= j
    ensures Walking(sa, ua, i', x, cs) && Walking(sb, ub, j', y, cs) && Aligned(Members(sa), Members(sb), i', j')
    ensures Patching(patch, u, Members(sa), Members(sb), Seen(Members(sa), Members(sb), i', j'), names)
    ensures forall n :: n in Nodes(u) && n !in Nodes(u0) ==> fresh(n)
    decreases |Nodes(sa)|, 0
  {
    hide Linked, Separate, Nodes, Under, TidyTree, MeaningOf, JsonOf, MergeSpec, NullsKept, Spare, Same, Walking,
         Settling, Aligned, Seen, Ascending, TidyMembers, StrCmp, Fine, Lower, PairsOf, Meaning;
    ghost var p, q := Members(sa), Members(sb);
    x, y, i', j', ua, ub := x0, y0, i, j, ta, tb;
    NodesExist(ta); UnderExist(ta.kids); NodesExist(tb); UnderExist(tb.kids); NodesExist(u0); UnderExist(u0.kids);
    TopsInside(u0);
    TopsInside(ta);
    TopsInside(tb);
    if x != null { WalkMember(sa, ta, i, x, cs, names); }
    if y != null { WalkMember(sb, tb, j, y, cs, names); }
    var diff := if x == null then 1 else if y == null then -1 else StrCmp(x.key, y.key);
    assert Turn(p, q, i, j, diff);
    if diff < 0 {
      u := Drop(patch, x.key, u0, p, q, i, j, diff, names);
      WalkOver(sa, ta, i, x, cs);
      x, i' := x.next, i + 1;
    } else if diff > 0 {
      WalkLinked(sb, tb, j, y, cs);
      u := Bring(patch, y, u0, sb.kids[j], p, q, i, j, diff, names);
      WalkOver(sb, tb, j, y, cs);
      y, j' := y.next, j + 1;
    } else {
      CmpZero(x.key, y.key);
      WalkApart(sa, ta, i, x, cs);
      SmallerKid(sa, i);
      var same, led;
      ghost var v;
      same, led, v, ua, ub := Both(x, y, cs, i, j, sa, sb, ta, tb, names);
      BothTidy(sa, cs, names);
      BothTidy(sb, cs, names);
      WalkEnds(sa, ua, i + 1, x.next, cs);
      WalkEnds(sb, ub, j + 1, y.next, cs);
      NodesExist(ua); UnderExist(ua.kids); NodesExist(ub); UnderExist(ub.kids);
      TopsInside(ua);
      TopsInside(ub);
      TopsInside(v);
      u := Settle(patch, same, led, x.key, u0, v, p, q, i, j, diff, names);
      x, y, i', j' := x.next, y.next, i + 1, j + 1;
    }
  }

  lemma WalkLinked(s: Tree, t: Tree, i: nat, x: Item?, cs: bool)
    requires Walking(s, t, i, x, cs) && i < |s.kids| && i < |t.kids|
    ensures Linked(s.kids[i])
  {
    hide Alike, Separate;
  }

  lemma WalkApart(s: Tree, t: Tree, i: nat, x: Item?, cs: bool)
    requires Walking(s, t, i, x, cs)
    ensures Separate(s)
  {
    hide Alike, Separate, Linked;
  }

  // Two objects: a walk along both sorted lists.
  method GenerateObjects(from: Item, to: Item, key: Text, cs: bool, ghost tf: Tree, ghost tt: Tree,
                         ghost names: set<Text>)
    returns (r: Item?, ghost u: Tree, ghost uf: Tree, ghost ut: Tree)
    requires tf.node == from && tt.node == to && Stands(tf) && Stands(tt) && Nodes(tf) !! Nodes(tt)
    requires Fine(tf, names) && Fine(tt, names) && from.value.Object? && to.value.Object?
    modifies Nodes(tf)`child, Nodes(tt)`child, Under(tf.kids)`next, Under(tf.kids)`prev, Under(tt.kids)`next,
             Under(tt.kids)`prev
    ensures Kept(tf, uf, cs) && Kept(tt, ut, cs) && Linked(uf) && Linked(ut)
    ensures r == null <==> MeaningOf(tf, true) == MeaningOf(tt, true)
    ensures r != null ==> fresh(Nodes(u)) && Led(r, u, key, MeaningOf(tf, true), MeaningOf(tt, true), names)
    decreases |Nodes(tf)|, 1
  {
    hide Linked, Separate, Nodes, Under, TidyTree, MeaningOf, JsonOf, MergeSpec, NullsKept, Spare, Same, Walking,
         Kept, Settling, Aligned, Seen, Ascending, TidyMembers, StrCmp, Fine, Lower, Fields, PairsOf;
    BothTidy(tf, cs, names);
    BothTidy(tt, cs, names);
    NodesExist(tf); UnderExist(tf.kids); NodesExist(tt); UnderExist(tt.kids);
    TopsInside(tf);
    TopsInside(tt);
    var patch := new Item(key, Object([]));
    ghost var sa, sb := SortBoth(from, to, cs, tf, tt);
    u := Tree(patch, []);
    OnlyNode(patch);
    FineOrder(tf, names);
    FineEmpty(u, names);
    SortedMembers(tf, sa, cs, names);
    SortedMembers(tt, sb, cs, names);
    KeptNodes(tf, sa, cs, names);
    KeptNodes(tt, sb, cs, names);
    var x, y := from.child, to.child;
    ghost var i, j := 0, 0;
    uf, ut := sa, sb;
    BothTidy(sa, cs, names);
    BothTidy(sb, cs, names);
    WalkStarts(sa, x, cs);
    WalkStarts(sb, y, cs);
    Outset(Members(sa), Members(sb));
    WalkEnds(sa, uf, i, x, cs);
    WalkEnds(sb, ut, j, y, cs);
    while x != null || y != null
      invariant Walking(sa, uf, i, x, cs) && Walking(sb, ut, j, y, cs) && i <= |sa.kids| && j <= |sb.kids|
      invariant Kept(sa, uf, cs) && Kept(sb, ut, cs) && Linked(uf) && Linked(ut)
      invariant Nodes(uf) == Nodes(tf) && Nodes(ut) == Nodes(tt) && Aligned(Members(sa), Members(sb), i, j)
      invariant Under(uf.kids) == Under(tf.kids) && Under(ut.kids) == Under(tt.kids)
      invariant Patching(patch, u, Members(sa), Members(sb), Seen(Members(sa), Members(sb), i, j), names)
      invariant fresh(Nodes(u))
      invariant (x == null <==> i == |sa.kids|) && (y == null <==> j == |sb.kids|)
      decreases |sa.kids| - i + |sb.kids| - j
    {
      TopsInside(u);
      x, y, i, j, uf, ut, u := Advance(patch, x, y, cs, i, j, sa, sb, uf, ut, u, names);
      WalkEnds(sa, uf, i, x, cs);
      WalkEnds(sb, ut, j, y, cs);
    }
    KeptTwice(tf, sa, uf, cs);
    KeptTwice(tt, sb, ut, cs);
    NothingSaid(Members(sa), Members(sb), u, names);
    ChildAt(u, 0);
    r := if patch.child == null then null else patch;
  }

  // ---- Names in another order ----

  // From "a" and "B", which stand so without case, to "B" alone: the walk takes "B" for new,
  // then removes "a" and, after all, "B"; the three merged one after the other leave nothing.
  lemma WalkMisled(u: Json, v: Json)
    ensures var x, y := [Member("a", u), Member("B", v)], [Member("B", v)];
            && CompareStrings("a", "B", false) < 0
            && Diff(x, y, 0, 0) > 0 && Diff(x, y, 0, 1) < 0 && Diff(x, y, 1, 1) < 0
    ensures var f := map["a" := Meaning(u), "B" := Meaning(v)];
            var r := MergeSpec(VObject(f), VObject(map["B" := Meaning(v)]));
            MergeSpec(MergeSpec(r, VObject(map["a" := VNull])), VObject(map["B" := VNull])) == VObject(map[])
  {
    hide Meaning, MergeSpec;
    NotOrderly();
    CmpZero("a", "B");
    MergedAway(Meaning(u), Meaning(v));
  }

  lemma MergedAway(u: Value, v: Value)
    ensures var r := MergeSpec(VObject(map["a" := u, "B" := v]), VObject(map["B" := v]));
            MergeSpec(MergeSpec(r, VObject(map["a" := VNull])), VObject(map["B" := VNull])) == VObject(map[])
  {
    hide MergeSpec, MergeFields;
    var f, b, none := map["a" := u, "B" := v], map["B" := v], map["B" := VNull];
    MergeFieldsAt(f, b);
    var r := MergeFields(f, b);
    assert forall k :: k in r ==> k in {"a", "B"};
    MergeFieldsAt(r, map["a" := VNull]);
    var s := MergeFields(r, map["a" := VNull]);
    assert forall k :: k in s ==> k == "B";
    MergeFieldsAt(s, none);
    assert MergeFields(s, none) == map[];
  }

  // ---- The round trip ----

  // Merged in either reading, the patch leads to `to` exactly when it does name by name.
  lemma MergedEither(f: Tree, p: Tree, t: Tree, cs: bool, names: set<Text>)
    requires Fine(f, names) && Fine(p, names) && Fine(t, names)
    ensures MergeSpec(MeaningOf(f, cs), MeaningOf(p, cs)) == MeaningOf(t, cs)
            <==> MergeSpec(MeaningOf(f, true), MeaningOf(p, true)) == MeaningOf(t, true)
  {
    hide TidyTree, MeaningOf, Orderly, Lowers, NamesIn, MergeSpec;
    TreeLowers(f, names);
    TreeLowers(p, names);
    TreeLowers(t, names);
    var r, q := MergeSpec(MeaningOf(f, true), MeaningOf(p, true)), MergeSpec(MeaningOf(f, false), MeaningOf(p, false));
    MergeLowers(MeaningOf(f, true), MeaningOf(p, true), MeaningOf(f, false), MeaningOf(p, false), names);
    if r == MeaningOf(t, true) { LowersSame(r, q, MeaningOf(t, false)); }
    if q == MeaningOf(t, false) { LowersOnce(r, MeaningOf(t, true), q, names); }
  }

  // The patch generated from `from` to `to` and merged into `from` leaves what `to` means
  // exactly when `to` has no null member that `from` does not have.
  method MergeRoundTrip(from: Item, to: Item, cs: bool, ghost tf: Tree, ghost tt: Tree, ghost names: set<Text>)
    returns (r: Item, ghost u: Tree, ghost ut: Tree)
    requires tf.node == from && tt.node == to && Stands(tf) && Stands(tt) && Nodes(tf) !! Nodes(tt) && Unlinked(from)
    requires Fine(tf, names) && Fine(tt, names)
    modifies Nodes(tf)`child, Nodes(tt)`child, Under(tf.kids)`next, Under(tf.kids)`prev, Under(tt.kids)`next,
             Under(tt.kids)`prev
    ensures u.node == r && Stands(u) && TidyTree(u, cs) && Kept(tt, ut, cs)
    ensures MeaningOf(u, cs) == MeaningOf(ut, cs) <==> NullsKept(MeaningOf(tf, true), MeaningOf(tt, true))
  {
    hide Linked, Separate, Nodes, Under, TidyTree, MeaningOf, MergeSpec, NullsKept, Fine, Same;
    BothTidy(tf, cs, names);
    BothTidy(tt, cs, names);
    NodesExist(tf); UnderExist(tf.kids);
    TopsInside(tf);
    SeparateParts(tf);
    SeparateParts(tt);
    TopsInside(tt);
    var patch;
    ghost var p, uf;
    patch, p, uf, ut := GenerateMergePatch(from, to, "", cs, tf, tt, names);
    if patch == null {
      KeptSame(MeaningOf(tf, true));
      SameEither(tf, tt, cs, names);
      return from, uf, ut;
    }
    BothTidy(p, cs, names);
    UnderAgain(tf, uf);
    TopsInside(uf);
    FineKept(tf, uf, cs, names);
    KeptNodes(tf, uf, cs, names);
    FineKept(tt, ut, cs, names);
    KeptNodes(tt, ut, cs, names);
    MergedEither(uf, p, ut, cs, names);
    r, u := MergePatch(from, patch, cs, uf, p);
  }
}
