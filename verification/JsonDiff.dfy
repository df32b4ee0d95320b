// Generating JSON Patch documents from trees of nodes in memory
// (component/cJSON/cJSON_Utils.c, compose_patch and create_patches), and the round trip with
// their application.
module JsonDiff {
  import opened JsonValues
  import opened JsonSort
  import opened JsonCompare
  import opened JsonMembers
  import opened JsonPointer
  import opened JsonPatch
  import opened JsonLeads
  import opened JsonTrees
  import opened JsonKids
  import opened JsonGraft
  import opened JsonDetach
  import opened JsonInPlace
  import opened JsonMergeTree
  import opened JsonMergeDiff
  import opened Options

  // ---- encode_string_as_pointer ----

  // A name as the code writes it into a path; of a slash it writes the second character of
  // the escape only.
  function Encoded(k: Text): (t: Text)
    requires IsToken(k)
  {
    if k == "" then "" else (if k[0] == '~' then "~1" else [k[0]]) + Encoded(k[1..])
  }

  // What is written is read back as the name if and only if it has no tilde.
  lemma {:induction false} EncodedBack(k: Text)
    requires IsToken(k)
    ensures Unescaped(Encoded(k)) == Some(k) <==> Plain(k)
    ensures Plain(k) ==> Encoded(k) == k
    ensures Unescaped(Encoded(k)).Some? && |Unescaped(Encoded(k)).value| == |k|
    decreases k
  {
    hide Unescaped;
    if k == "" {
      EncodedNothing();
    } else {
      EncodedBack(k[1..]);
      EncodedStep(k);
      var u := Unescaped(Encoded(k[1..])).value;
      assert k == [k[0]] + k[1..] && (['/'] + u)[0] == '/' && ([k[0]] + u)[1..] == u;
    }
  }

  lemma EncodedNothing()
    ensures Unescaped("") == Some("")
  {
  }

  lemma EncodedStep(k: Text)
    requires IsToken(k) && k != "" && Unescaped(Encoded(k[1..])).Some?
    ensures Unescaped(Encoded(k)) == Some((if k[0] == '~' then ['/'] else [k[0]]) + Unescaped(Encoded(k[1..])).value)
  {
    var t := Encoded(k);
    if k[0] == '~' { assert t[2..] == Encoded(k[1..]); } else { assert t[1..] == Encoded(k[1..]); }
  }

  method Encode(source: Text) returns (t: Text)
    requires IsToken(source)
    ensures t == Encoded(source)
  {
    t := "";
    var i := 0;
    assert source[0..] == source;
    while i < |source|
      invariant i <= |source| && t + Encoded(source[i..]) == Encoded(source)
    {
      assert source[i..][1..] == source[i + 1..];
      var c := if source[i] == '~' then "~1" else [source[i]];
      assert t + (c + Encoded(source[i + 1..])) == t + c + Encoded(source[i + 1..]);
      t, i := t + c, i + 1;
    }
    assert t + "" == t;
  }

  // ---- compose_patch ----

  lemma TextNode(u: Tree, text: Text)
    requires u.node.value == String(text)
    ensures forall cs :: TidyTree(u, cs) && MeaningOf(u, cs) == VString(text)
  {
  }

  // A patch object on its way: on its own, of these members.
  ghost predicate Composing(patch: Item, p: Tree, f: map<Text, Value>, cs: bool)
    reads Nodes(p)`child, Under(p.kids)`next, Under(p.kids)`prev, patch`next, patch`prev
  {
    && p.node == patch && patch.value.Object? && Stands(p) && Unlinked(patch) && TidyTree(p, cs)
    && MeaningOf(p, cs) == VObject(f)
  }

  // One more member.
  method AddPart(patch: Item, item: Item, key: Text, ghost cs: bool, ghost p: Tree, ghost v: Tree, ghost f: map<Text,
                 Value>)
    returns (ghost u: Tree)
    requires Composing(patch, p, f, cs) && Ready(item, v, p) && TidyTree(v, cs) && item.key == key
    requires Fold(key, cs) == key && key !in f
    modifies patch`child, item`prev, Under(p.kids)`next
    ensures Composing(patch, u, f[key := MeaningOf(v, cs)], cs) && Nodes(u) == Nodes(p) + Nodes(v)
  {
    hide Separate, Linked, Nodes, Under, TidyTree, MeaningOf, Fold;
    TopsInside(p);
    TopsInside(v);
    SeparateParts(p);
    NodesExist(p); UnderExist(p.kids); NodesExist(v); UnderExist(v.kids);
    AddKid(patch, item, p, v);
    GrownObject(p, v, cs);
    GrownNodes(p, |p.kids|, v);
    u := Grown(p, |p.kids|, v);
  }

  method AddText(patch: Item, key: Text, text: Text, ghost cs: bool, ghost p: Tree, ghost f: map<Text, Value>)
    returns (ghost u: Tree)
    requires Composing(patch, p, f, cs) && Fold(key, cs) == key && key !in f
    modifies patch`child, Under(p.kids)`next
    ensures Composing(patch, u, f[key := VString(text)], cs)
    ensures forall n :: n in Nodes(u) && n !in Nodes(p) ==> fresh(n)
  {
    hide Separate, Linked, Nodes, Under, TidyTree, MeaningOf, Fold;
    NodesExist(p); UnderExist(p.kids);
    var item := new Item(key, String(text));
    ghost var v := Tree(item, []);
    OnlyNode(item);
    TextNode(v, text);
    u := AddPart(patch, item, key, cs, p, v, f);
  }

  // Patches added to an array, which ask for these operations below a place.
  ghost predicate Grew(s: Tree, u: Tree, prefix: seq<Text>, ops: seq<Op>, cs: bool) {
    && u.node == s.node && |u.kids| == |s.kids| + |ops| && u.kids[..|s.kids|] == s.kids && Local(ops)
    && forall i :: 0 <= i < |ops| ==> AsksAt(u.kids[|s.kids| + i], prefix, ops[i], cs)
  }

  ghost predicate AsksAt(k: Tree, prefix: seq<Text>, op: Op, cs: bool)
    requires op.path.Pointer?
  {
    TidyTree(k, cs) && Asks(MeaningOf(k, cs), Further(prefix, op))
  }

  lemma GrewNothing(s: Tree, prefix: seq<Text>, cs: bool)
    ensures Grew(s, s, prefix, [], cs)
  {
  }

  lemma GrewOn(s: Tree, u: Tree, w: Tree, prefix: seq<Text>, a: seq<Op>, b: seq<Op>, cs: bool)
    requires Grew(s, u, prefix, a, cs) && Grew(u, w, prefix, b, cs)
    ensures Grew(s, w, prefix, a + b, cs)
  {
    hide AsksAt;
    assert w.kids[..|s.kids|] == w.kids[..|u.kids|][..|s.kids|];
    forall i | 0 <= i < |a + b| ensures AsksAt(w.kids[|s.kids| + i], prefix, (a + b)[i], cs) {
      if i < |a| {
        assert w.kids[|s.kids| + i] == w.kids[..|u.kids|][|s.kids| + i] == u.kids[|s.kids| + i];
      } else {
        assert AsksAt(w.kids[|u.kids| + (i - |a|)], prefix, b[i - |a|], cs);
      }
    }
  }

  lemma GrewBelow(s: Tree, u: Tree, prefix: seq<Text>, t: Text, ops: seq<Op>, cs: bool)
    requires Grew(s, u, prefix + [t], ops, cs)
    ensures Local(ops) && Grew(s, u, prefix, Prefixed(t, ops), cs)
  {
    hide TidyTree, MeaningOf, Asks;
    forall i | 0 <= i < |ops| ensures AsksAt(u.kids[|s.kids| + i], prefix, Prefixed(t, ops)[i], cs) {
      assert AsksAt(u.kids[|s.kids| + i], prefix + [t], ops[i], cs);
      assert prefix + ([t] + ops[i].path.ts) == prefix + [t] + ops[i].path.ts;
    }
  }

  lemma GrewOne(s: Tree, u: Tree, k: Tree, prefix: seq<Text>, op: Op, cs: bool)
    requires u == Grown(s, |s.kids|, k) && Nearby(op) && AsksAt(k, prefix, op, cs)
    ensures Grew(s, u, prefix, [op], cs)
  {
    hide AsksAt;
  }

  // What the members ask for.
  lemma Composed(f: map<Text, Value>, path: seq<Text>, e: Edit)
    requires Changes(e) && AllPlain(path) && "op" in f && f["op"] == VString(Name(e))
    requires "path" in f && f["path"] == VString(PathText(path))
    requires e.Remove? || ("value" in f && f["value"] == e.value)
    ensures Asks(VObject(f), Op(Pointer(path), e))
  {
    hide PathText, Tokens;
    PlainTokens(path);
    TokensOfPath(path);
  }

  lemma PlainTokens(path: seq<Text>)
    requires AllPlain(path)
    ensures AllTokens(path)
  {
  }

  // A patch object for an operation, with a duplicate of the value.
  method MakePatch(operation: Text, full: Text, value: Item?, ghost cs: bool, ghost tv: Tree, ghost path: seq<Text>,
                   ghost e: Edit)
    returns (patch: Item, ghost p: Tree)
    requires operation == Name(e) && Changes(e) && AllPlain(path) && full == PathText(path)
    requires e.Remove? <==> value == null
    requires value != null ==> tv.node == value && Linked(tv) && TidyTree(tv, cs) && MeaningOf(tv, cs) == e.value
    ensures p.node == patch && Stands(p) && Unlinked(patch) && fresh(Nodes(p)) && TidyTree(p, cs)
    ensures Asks(MeaningOf(p, cs), Op(Pointer(path), e))
  {
    hide Separate, Linked, Nodes, Under, TidyTree, MeaningOf, Fold, SameValue, PathText, Asks, Plain;
    OwnNames(cs);
    NodesExist(tv); UnderExist(tv.kids);
    patch := new Item("", Object([]));
    p := Tree(patch, []);
    OnlyNode(patch);
    EmptyObject(p, cs);
    TopsInside(p);
    p := AddText(patch, "op", operation, cs, p, map[]);
    TopsInside(p);
    p := AddText(patch, "path", full, cs, p, map["op" := VString(operation)]);
    ghost var f := map["op" := VString(operation)]["path" := VString(full)];
    if value != null {
      NodesExist(p); UnderExist(p.kids);
      TopsInside(p);
      var item;
      ghost var v;
      item, v := Duplicate(value, "value", tv);
      SameMeaning(v, tv);
      TopsInside(v);
      p := AddPart(patch, item, "value", cs, p, v, f);
      f := f["value" := e.value];
    }
    Composed(f, path, e);
  }

  lemma OneMorePlain(prefix: seq<Text>, ts: seq<Text>)
    requires AllPlain(prefix) && AllPlain(ts)
    ensures AllPlain(prefix + ts)
  {
  }

  lemma PlainToken(t: Text)
    requires Plain(t)
    ensures IsToken(t)
  {
  }

  // compose_patch: one more patch in the array.
  method ComposePatch(patches: Item, operation: Text, path: Text, suffix: Option<Text>, value: Item?, ghost cs: bool,
                      ghost s: Tree, ghost tv: Tree, ghost prefix: seq<Text>, ghost op: Op)
    returns (ghost u: Tree)
    requires s.node == patches && Stands(s) && Nearby(op) && operation == Name(op.edit)
    requires path == PathText(prefix) && AllPlain(prefix) && (suffix.Some? ==> Plain(suffix.value))
    requires op.path.ts == if suffix.Some? then [suffix.value] else []
    requires op.edit.Remove? <==> value == null
    requires value != null ==> tv.node == value && Linked(tv) && TidyTree(tv, cs) && MeaningOf(tv, cs) == op.edit.value
    modifies patches`child, Under(s.kids)`next
    ensures Grew(s, u, prefix, [op], cs) && Stands(u) && u.node == patches
    ensures forall n :: n in Nodes(u) && n !in Nodes(s) ==> fresh(n)
  {
    hide Separate, Linked, Nodes, Under, TidyTree, MeaningOf, PathText, Asks, Plain;
    ghost var full_path := prefix + op.path.ts;
    assert prefix + [] == prefix;
    OneMorePlain(prefix, op.path.ts);
    NodesExist(s); UnderExist(s.kids); NodesExist(tv); UnderExist(tv.kids);
    TopsInside(s);
    SeparateParts(s);
    var full := path;
    if suffix.Some? {
      PlainToken(suffix.value);
      var name := Encode(suffix.value);
      EncodedBack(suffix.value);
      PathAppend(prefix, suffix.value);
      full := path + "/" + name;
    }
    var patch;
    ghost var p;
    patch, p := MakePatch(operation, full, value, cs, tv, full_path, op.edit);
    TopsInside(p);
    AddKid(patches, patch, s, p);
    GrownNodes(s, |s.kids|, p);
    u := Grown(s, |s.kids|, p);
    GrewOne(s, u, p, prefix, op, cs);
  }

  // ---- create_patches ----

  // Names that need no escape, throughout a value.
  ghost predicate PlainNames(v: Value) {
    match v
    case VArray(items) => forall i :: 0 <= i < |items| ==> PlainNames(items[i])
    case VObject(f) => forall k :: k in f ==> Plain(k) && PlainNames(f[k])
    case _ => true
  }

  lemma FoldPlain(k: Text, cs: bool)
    requires Plain(Fold(k, cs))
    ensures Plain(k)
  {
    var f := Fold(k, cs);
    forall i | 0 <= i < |k| ensures k[i] != '~' && k[i] != '/' {
      assert f[i] == if cs then k[i] else LowerChar(k[i]);
    }
  }

  // Where the patches go and how names count; calm where the case of names matters and
  // none may differ in case only.
  datatype Place = Place(prefix: seq<Text>, cs: bool, calm: bool)

  ghost predicate Fit(a: Tree, b: Tree, pl: Place) {
    && TidyTree(a, pl.cs) && TidyTree(b, pl.cs) && PlainNames(MeaningOf(a, pl.cs)) && PlainNames(MeaningOf(b, pl.cs))
    && (pl.calm ==> pl.cs && TwinFree(MeaningOf(a, pl.cs), MeaningOf(b, pl.cs)))
  }

  lemma FitKept(a: Tree, b: Tree, u: Tree, w: Tree, pl: Place)
    requires Fit(a, b, pl) && Kept(a, u, pl.cs) && Kept(b, w, pl.cs)
    ensures Fit(u, w, pl)
  {
    hide TidyTree, MeaningOf, TwinFree, PlainNames, Nodes, Separate;
  }

  lemma FitItems(a: Tree, b: Tree, i: nat, pl: Place)
    requires Fit(a, b, pl) && a.node.value.Array? && b.node.value.Array? && i < |a.kids| && i < |b.kids|
    ensures Fit(a.kids[i], b.kids[i], pl)
  {
    hide TidyTree, MeaningOf;
    ArrayTree(a, pl.cs);
    ArrayTree(b, pl.cs);
  }

  lemma FitMembers(a: Tree, b: Tree, i: nat, j: nat, pl: Place)
    requires Fit(a, b, pl) && a.node.value.Object? && b.node.value.Object? && i < |a.kids| && j < |b.kids|
    requires Fold(a.kids[i].node.key, pl.cs) == Fold(b.kids[j].node.key, pl.cs)
    ensures Fit(a.kids[i], b.kids[j], pl)
  {
    hide TidyTree, MeaningOf, Fold;
    MemberTree(a, i, pl.cs);
    MemberTree(b, j, pl.cs);
  }

  lemma FitNames(a: Tree, b: Tree, pl: Place)
    requires Fit(a, b, pl)
    ensures a.node.value.Object? ==> forall i :: 0 <= i < |a.kids| ==> Plain(a.kids[i].node.key)
    ensures b.node.value.Object? ==> forall j :: 0 <= j < |b.kids| ==> Plain(b.kids[j].node.key)
  {
    hide TidyTree, MeaningOf, Fold, Plain;
    if a.node.value.Object? { ObjectNames(a, pl.cs); }
    if b.node.value.Object? { ObjectNames(b, pl.cs); }
  }

  lemma ObjectNames(a: Tree, cs: bool)
    requires TidyTree(a, cs) && a.node.value.Object? && PlainNames(MeaningOf(a, cs))
    ensures forall i :: 0 <= i < |a.kids| ==> Plain(a.kids[i].node.key)
  {
    hide TidyTree, MeaningOf, Fold, Plain;
    forall i | 0 <= i < |a.kids| ensures Plain(a.kids[i].node.key) {
      MemberTree(a, i, cs);
      FoldPlain(a.kids[i].node.key, cs);
    }
  }

  // The patches added since s lead from v to w, each of them wanted on the way to z.
  ghost predicate Going(s: Tree, u: Tree, ops: seq<Op>, v: Value, w: Value, z: Value, pl: Place) {
    Grew(s, u, pl.prefix, ops, pl.cs) && Leads(v, ops, w, pl.cs, pl.calm) && AllWanted(v, z, ops, pl.cs)
  }

  lemma GoingOn(s: Tree, u: Tree, x: Tree, a: seq<Op>, b: seq<Op>, v: Value, w: Value, y: Value, z: Value, pl: Place)
    requires Going(s, u, a, v, w, z, pl) && Grew(u, x, pl.prefix, b, pl.cs)
    requires Leads(w, b, y, pl.cs, pl.calm) && AllWanted(v, z, b, pl.cs)
    ensures Going(s, x, a + b, v, y, z, pl)
  {
    hide Grew, Leads, Wanted;
    GrewOn(s, u, x, pl.prefix, a, b, pl.cs);
    LeadsOn(v, a, w, b, y, pl.cs, pl.calm);
  }

  lemma GoingNowhere(s: Tree, v: Value, z: Value, pl: Place)
    ensures Going(s, s, [], v, v, z, pl)
  {
    GrewNothing(s, pl.prefix, pl.cs);
  }

  // The same child of two values.
  ghost predicate ChildOf(v: Value, z: Value, t: Text, x: Value, y: Value, cs: bool) {
    || (v.VArray? && z.VArray? && exists i: nat :: ItemOf(v.items, z.items, t, x, y, i))
    || (v.VObject? && z.VObject? && var k := Fold(t, cs);
        k in v.fields && k in z.fields && v.fields[k] == x && z.fields[k] == y)
  }

  ghost predicate ItemOf(v: seq<Value>, z: seq<Value>, t: Text, x: Value, y: Value, i: nat) {
    i < |v| && i < |z| && t == Decimal(i) && v[i] == x && z[i] == y
  }

  // What is wanted of a child is wanted below it.
  lemma WantedBelow(v: Value, z: Value, t: Text, x: Value, y: Value, ops: seq<Op>, cs: bool)
    requires ChildOf(v, z, t, x, y, cs) && AllWanted(x, y, ops, cs)
    ensures AllWanted(v, z, Prefixed(t, ops), cs)
  {
    hide Wanted;
    forall i | 0 <= i < |ops| ensures Wanted(v, z, [t] + ops[i].path.ts, ops[i].edit, cs) {
      OneBelow(v, z, t, x, y, ops[i].path.ts, ops[i].edit, cs);
    }
  }

  lemma OneBelow(v: Value, z: Value, t: Text, x: Value, y: Value, ts: seq<Text>, e: Edit, cs: bool)
    requires ChildOf(v, z, t, x, y, cs) && Wanted(x, y, ts, e, cs)
    ensures Wanted(v, z, [t] + ts, e, cs)
  {
    hide Fold;
    var whole := [t] + ts;
    assert whole[0] == t && whole[1..] == ts;
    if v.VArray? {
      var i: nat :| ItemOf(v.items, z.items, t, x, y, i);
      assert WantedItem(v.items[i], z.items[i], i, whole, e, cs);
    }
  }

  // The place of a child.
  function Inside(pl: Place, t: Text): Place {
    pl.(prefix := pl.prefix + [t])
  }

  lemma InsidePath(pl: Place, t: Text)
    requires AllPlain(pl.prefix) && Plain(t)
    ensures AllPlain(Inside(pl, t).prefix) && PathText(Inside(pl, t).prefix) == PathText(pl.prefix) + "/" + t
    ensures Encoded(t) == t && IsToken(t)
  {
    hide PathText;
    PathAppend(pl.prefix, t);
    PlainToken(t);
    EncodedBack(t);
  }

  lemma FitInside(a: Tree, b: Tree, pl: Place, t: Text)
    requires Fit(a, b, pl)
    ensures Fit(a, b, Inside(pl, t))
  {
    hide TidyTree, MeaningOf, TwinFree, PlainNames;
  }

  // What leads on below a child leads on, and is wanted.
  lemma GoingBelow(s: Tree, u: Tree, ops: seq<Op>, cur: Value, t: Text, y: Value, v: Value, z: Value, pl: Place)
    requires Child(cur, t, Rfc(pl.cs)).Some? && Unlike(cur, t, pl)
    requires var x := Child(cur, t, Rfc(pl.cs)).value;
             Going(s, u, ops, x, y, y, Inside(pl, t)) && ChildOf(v, z, t, x, y, pl.cs)
    ensures Local(ops) && Grew(s, u, pl.prefix, Prefixed(t, ops), pl.cs) && AllWanted(v, z, Prefixed(t, ops), pl.cs)
    ensures Leads(cur, Prefixed(t, ops), SetChild(cur, t, y, Rfc(pl.cs)), pl.cs, pl.calm)
  {
    hide Leads, Child, SetChild, AsksAt, ChildOf, Wanted;
    GrewBelow(s, u, pl.prefix, t, ops, pl.cs);
    LeadsBelow(cur, t, ops, y, pl.cs, pl.calm);
    WantedBelow(v, z, t, Child(cur, t, Rfc(pl.cs)).value, y, ops, pl.cs);
  }

  // Where it matters, no name in an object differs from this one in case only.
  ghost predicate Unlike(v: Value, t: Text, pl: Place) {
    pl.calm ==> pl.cs && (v.VObject? ==> Lonely(v.fields, Decoded(t)))
  }

  // One more operation at a child, with its patch object.
  method AppendOp(patches: Item, name: Text, path: Text, suffix: Text, value: Item?, ghost pl: Place, ghost s: Tree,
                  ghost before: Tree, ghost tv: Tree, ghost ops0: seq<Op>, ghost v: Value, ghost cur: Value,
                  ghost z: Value, ghost e: Edit)
    returns (ghost u: Tree, ghost ops: seq<Op>)
    requires before.node == patches && Stands(before) && Changes(e) && name == Name(e) && path == PathText(pl.prefix)
    requires AllPlain(pl.prefix) && Plain(suffix) && (e.Remove? <==> value == null)
    requires value != null ==> tv.node == value && Linked(tv) && TidyTree(tv, pl.cs) && MeaningOf(tv, pl.cs) == e.value
    requires Going(s, before, ops0, v, cur, z, pl) && EditChild(cur, suffix, e, Rfc(pl.cs)).Some?
    requires EditChild(cur, suffix, e, Rfc(pl.cs)).value != cur && Wanted(v, z, [suffix], e, pl.cs)
    requires e.Add? || Unlike(cur, suffix, pl)
    modifies patches`child, Under(before.kids)`next
    ensures Going(s, u, ops, v, EditChild(cur, suffix, e, Rfc(pl.cs)).value, z, pl) && Stands(u) && u.node == patches
    ensures forall n :: n in Nodes(u) && n !in Nodes(before) ==> fresh(n)
  {
    hide MeaningOf, PathText, AllPlain, Leads, EditChild, Plain, TidyTree, Nodes, Under, Separate, Linked, Grew;
    ghost var op := Op(Pointer([suffix]), e);
    u := ComposePatch(patches, name, path, Some(suffix), value, pl.cs, before, tv, pl.prefix, op);
    LeadsOne(cur, suffix, e, pl.cs, pl.calm);
    GoingOn(s, before, u, ops0, [op], v, cur, EditChild(cur, suffix, e, Rfc(pl.cs)).value, z, pl);
    ops := ops0 + [op];
  }

  // Three trees that share no node.
  ghost predicate Parted(s: Tree, a: Tree, b: Tree) {
    Nodes(s) !! Nodes(a) && Nodes(s) !! Nodes(b) && Nodes(a) !! Nodes(b)
  }

  lemma ReplacementWanted(tf: Tree, tt: Tree, cs: bool)
    requires !(tf.node.value.Array? && tt.node.value.Array?) && !(tf.node.value.Object? && tt.node.value.Object?)
    requires MeaningOf(tf, cs) != MeaningOf(tt, cs)
    ensures Wanted(MeaningOf(tf, cs), MeaningOf(tt, cs), [], Replace(MeaningOf(tt, cs)), cs)
  {
    hide ItemsOf, PairsOf;
  }

  // Replacement of the value at the path itself.
  method ReplaceHere(patches: Item, path: Text, to: Item, ghost pl: Place, ghost s: Tree, ghost tf: Tree,
                     ghost tt: Tree)
    returns (ghost u: Tree, ghost ops: seq<Op>)
    requires s.node == patches && Stands(s) && tt.node == to && Linked(tt) && Fit(tf, tt, pl)
    requires path == PathText(pl.prefix) && AllPlain(pl.prefix)
    requires !(tf.node.value.Array? && to.value.Array?) && !(tf.node.value.Object? && to.value.Object?)
    requires MeaningOf(tf, pl.cs) != MeaningOf(tt, pl.cs)
    modifies patches`child, Under(s.kids)`next
    ensures Going(s, u, ops, MeaningOf(tf, pl.cs), MeaningOf(tt, pl.cs), MeaningOf(tt, pl.cs), pl) && Stands(u)
    ensures u.node == patches
    ensures forall n :: n in Nodes(u) && n !in Nodes(s) ==> fresh(n)
  {
    hide MeaningOf, PathText, AllPlain, Leads, Plain, TidyTree, Nodes, Under, Separate, Linked, Grew;
    ghost var op := Op(Pointer([]), Replace(MeaningOf(tt, pl.cs)));
    u := ComposePatch(patches, "replace", path, None, to, pl.cs, s, tt, pl.prefix, op);
    LeadsRoot(MeaningOf(tf, pl.cs), MeaningOf(tt, pl.cs), pl.cs, pl.calm);
    ReplacementWanted(tf, tt, pl.cs);
    ops := [op];
  }

  // create_patches: the operations that turn what `from` means into what `to` means; the
  // objects visited are left sorted, which changes no meaning.
  method CreatePatches(patches: Item, path: Text, from: Item, to: Item, cs: bool, ghost pl: Place, ghost s: Tree,
                       ghost tf: Tree, ghost tt: Tree)
    returns (ghost u: Tree, ghost uf: Tree, ghost ut: Tree, ghost ops: seq<Op>)
    requires s.node == patches && tf.node == from && tt.node == to && Parted(s, tf, tt)
    requires Stands(s) && Stands(tf) && Stands(tt) && Fit(tf, tt, pl)
    requires pl.cs == cs && path == PathText(pl.prefix) && AllPlain(pl.prefix)
    modifies patches`child, Under(s.kids)`next, Nodes(tf)`child, Nodes(tt)`child, Under(tf.kids)`next,
             Under(tf.kids)`prev, Under(tt.kids)`next, Under(tt.kids)`prev
    ensures Going(s, u, ops, MeaningOf(tf, cs), MeaningOf(tt, cs), MeaningOf(tt, cs), pl) && Stands(u)
    ensures u.node == patches
    ensures forall n :: n in Nodes(u) && n !in Nodes(s) ==> fresh(n)
    ensures Kept(tf, uf, cs) && Kept(tt, ut, cs) && Linked(uf) && Linked(ut)
    decreases |Nodes(tf)|, 3
  {
    hide Linked, Separate, Nodes, Under, TidyTree, MeaningOf, PathText, Leads, Grew, AllPlain;
    u, uf, ut, ops := s, tf, tt, [];
    TreesDiffer(tf, tt, cs);
    KeptItself(tf, cs);
    KeptItself(tt, cs);
    GoingNowhere(s, MeaningOf(tf, cs), MeaningOf(tt, cs), pl);
    NodesExist(tf); UnderExist(tf.kids); NodesExist(tt); UnderExist(tt.kids);
    TopsInside(s);
    TopsInside(tf);
    TopsInside(tt);
    match (from.value, to.value) {
      case (Number(m), Number(n)) =>
        if m != n { u, ops := ReplaceHere(patches, path, to, pl, s, tf, tt); }
      case (String(a), String(b)) =>
        if a != b { u, ops := ReplaceHere(patches, path, to, pl, s, tf, tt); }
      case (Array(_), Array(_)) => u, uf, ut, ops := PatchArray(patches, path, from, to, cs, pl, s, tf, tt);
      case (Object(_), Object(_)) => u, uf, ut, ops := PatchObject(patches, path, from, to, cs, pl, s, tf, tt);
      case _ =>
        if from.value != to.value { u, ops := ReplaceHere(patches, path, to, pl, s, tf, tt); }
    }
  }

  // The recursive call for a child of each side.
  method PatchKid(patches: Item, path: Text, x: Item, y: Item, cs: bool, ghost pl: Place, ghost i: nat, ghost j: nat,
                  ghost s: Tree, ghost ta: Tree, ghost tb: Tree)
    returns (ghost u: Tree, ghost ua: Tree, ghost ub: Tree, ghost ops: seq<Op>)
    requires Stands(s) && Stands(ta) && Stands(tb) && Parted(s, ta, tb) && s.node == patches
    requires i < |ta.kids| && j < |tb.kids| && x == ta.kids[i].node && y == tb.kids[j].node
    requires Fit(ta.kids[i], tb.kids[j], pl) && pl.cs == cs && path == PathText(pl.prefix) && AllPlain(pl.prefix)
    modifies patches`child, Under(s.kids)`next, Nodes(ta)`child, Nodes(tb)`child, Under(ta.kids)`next,
             Under(ta.kids)`prev, Under(tb.kids)`next, Under(tb.kids)`prev
    ensures Going(s, u, ops, MeaningOf(ta.kids[i], cs), MeaningOf(tb.kids[j], cs), MeaningOf(tb.kids[j], cs), pl)
    ensures Stands(u) && u.node == patches
    ensures forall n :: n in Nodes(u) && n !in Nodes(s) ==> fresh(n)
    ensures Kept(ta.kids[i], ua, cs) && Separate(Put(ta, i, ua)) && Linked(Put(ta, i, ua))
    ensures Kept(tb.kids[j], ub, cs) && Separate(Put(tb, j, ub)) && Linked(Put(tb, j, ub))
    decreases |Nodes(ta.kids[i])|, 4
  {
    hide Linked, Separate, Nodes, Under, TidyTree, MeaningOf, Around, PathText, AllPlain, Going, Fit, Same;
    AroundLinked(ta, i);
    AroundLinked(tb, j);
    OutsideKid(ta, i);
    OutsideKid(tb, j);
    KidInside(ta, i);
    KidInside(tb, j);
    NodesExist(ta); UnderExist(ta.kids); NodesExist(tb); UnderExist(tb.kids);
    TopsInside(s);
    u, ua, ub, ops := CreatePatches(patches, path, x, y, cs, pl, s, ta.kids[i], tb.kids[j]);
    assert Around(ta, i);
    assert Around(tb, j);
    AroundPut(ta, i, ua);
    AroundPut(tb, j, ub);
    AroundLinked(Put(ta, i, ua), i);
    AroundLinked(Put(tb, j, ub), j);
  }

  // Both walks one step on, with the patches for a child both sides have.
  method PatchStep(patches: Item, new_path: Text, ghost name: Text, x: Item, y: Item, cs: bool, ghost pl: Place,
                   ghost i: nat, ghost j: nat, ghost s: Tree, ghost before: Tree, ghost sa: Tree, ghost sb: Tree,
                   ghost ta: Tree, ghost tb: Tree, ghost ops0: seq<Op>, ghost v: Value, ghost cur: Value,
                   ghost z: Value)
    returns (ghost u: Tree, ghost ua: Tree, ghost ub: Tree, ghost ops: seq<Op>)
    requires Walking(sa, ta, i, x, cs) && Walking(sb, tb, j, y, cs) && i < |sa.kids| && j < |sb.kids|
    requires before.node == patches && Stands(before) && Parted(before, ta, tb)
    requires Fit(sa.kids[i], sb.kids[j], pl) && pl.cs == cs && AllPlain(pl.prefix) && Plain(name)
    requires new_path == PathText(pl.prefix) + "/" + name
    requires Going(s, before, ops0, v, cur, z, pl) && Child(cur, name, Rfc(cs)) == Some(MeaningOf(sa.kids[i], cs))
    requires Unlike(cur, name, pl)
    requires ChildOf(v, z, name, MeaningOf(sa.kids[i], cs), MeaningOf(sb.kids[j], cs), cs)
    modifies patches`child, Under(before.kids)`next, Nodes(ta)`child, Nodes(tb)`child, Under(ta.kids)`next,
             Under(ta.kids)`prev, Under(tb.kids)`next, Under(tb.kids)`prev
    ensures Going(s, u, ops, v, SetChild(cur, name, MeaningOf(sb.kids[j], cs), Rfc(cs)), z, pl) && Stands(u)
    ensures u.node == patches
    ensures forall n :: n in Nodes(u) && n !in Nodes(before) ==> fresh(n)
    ensures Walking(sa, ua, i + 1, x.next, cs) && Walking(sb, ub, j + 1, y.next, cs)
    decreases |Nodes(sa.kids[i])|, 5
  {
    hide Linked, Separate, Nodes, Under, TidyTree, MeaningOf, PathText, AllPlain, Going, Fit, Same, Kept, Child,
         SetChild, ChildOf, Plain;
    ghost var wa, wb, below;
    InsidePath(pl, name);
    FitInside(sa.kids[i], sb.kids[j], pl, name);
    u, wa, wb, below := PatchKid(patches, new_path, x, y, cs, Inside(pl, name), i, j, before, ta, tb);
    GoingBelow(before, u, below, cur, name, MeaningOf(sb.kids[j], cs), v, z, pl);
    GoingOn(s, before, u, ops0, Prefixed(name, below), v, cur,
            SetChild(cur, name, MeaningOf(sb.kids[j], cs), Rfc(cs)), z,
            pl);
    ops := ops0 + Prefixed(name, below);
    WalkOn(sa, ta, i, wa, cs);
    WalkOn(sb, tb, j, wb, cs);
    ua, ub := Put(ta, i, wa), Put(tb, j, wb);
  }

  // What has been added to an array of patches is all that is new below it.
  lemma UnderOnly(s: Tree, u: Tree)
    requires u.node == s.node && Separate(u)
    ensures forall n :: n in Under(u.kids) ==> n in Nodes(u) && n != s.node && (n in Nodes(s) ==> n in Under(s.kids))
  {
    hide Under;
    OwnNodes(s);
    OwnNodes(u);
  }

  // The elements after the first i patches of an array, the rest still as in `from`.
  ghost function Halfway(v: seq<Value>, w: seq<Value>, i: nat): Value
    requires i <= |v| && i <= |w|
  {
    VArray(w[..i] + v[i..])
  }

  lemma ArrayChild(v: seq<Value>, w: seq<Value>, i: nat, cs: bool)
    requires i < |v| && i < |w|
    ensures Child(Halfway(v, w, i), Decimal(i), Rfc(cs)) == Some(v[i])
    ensures SetChild(Halfway(v, w, i), Decimal(i), w[i], Rfc(cs)) == Halfway(v, w, i + 1)
  {
    hide IndexValue;
    DecimalIndex(i);
    var items := w[..i] + v[i..];
    assert items[i := w[i]] == w[..i + 1] + v[i + 1..];
  }

  lemma RemoveLeftover(w: seq<Value>, v: seq<Value>, m: nat, k: nat, cs: bool)
    requires m <= |w| && m <= k < |v|
    ensures EditChild(VArray(w[..m] + v[k..]), Decimal(m), Remove, Rfc(cs)) == Some(VArray(w[..m] + v[k + 1..]))
    ensures VArray(w[..m] + v[k + 1..]) != VArray(w[..m] + v[k..])
    ensures Plain(Decimal(m))
  {
    hide IndexValue;
    DecimalIndex(m);
    var items := w[..m] + v[k..];
    assert items[..m] + items[m + 1..] == w[..m] + v[k + 1..];
    assert |w[..m] + v[k + 1..]| < |items|;
  }

  lemma RemovalWanted(v: seq<Value>, w: seq<Value>, cs: bool)
    requires |w| < |v|
    ensures Wanted(VArray(v), VArray(w), [Decimal(|w|)], Remove, cs)
  {
  }

  lemma AdditionWanted(v: seq<Value>, w: seq<Value>, k: nat, cs: bool)
    requires |v| <= k < |w|
    ensures Wanted(VArray(v), VArray(w), ["-"], Add(w[k]), cs)
  {
  }

  lemma AddLeftover(w: seq<Value>, k: nat, cs: bool)
    requires k < |w|
    ensures EditChild(VArray(w[..k]), "-", Add(w[k]), Rfc(cs)) == Some(VArray(w[..k + 1]))
    ensures VArray(w[..k + 1]) != VArray(w[..k])
    ensures Plain("-")
  {
    assert w[..k] + [w[k]] == w[..k + 1];
    assert |w[..k + 1]| > |w[..k]|;
  }

  // The next element on both sides.
  method CommonStep(patches: Item, path: Text, x: Item, y: Item, index: nat, cs: bool, ghost pl: Place, ghost s: Tree,
                    ghost before: Tree, ghost tf: Tree, ghost tt: Tree, ghost ta: Tree, ghost tb: Tree,
                    ghost ops0: seq<Op>)
    returns (ghost u: Tree, ghost ua: Tree, ghost ub: Tree, ghost ops: seq<Op>)
    requires before.node == patches && Stands(before) && Parted(before, ta, tb) && Separate(tf) && Fit(tf, tt, pl)
    requires tf.node.value.Array? && tt.node.value.Array? && MeaningOf(tf, cs).VArray? && MeaningOf(tt, cs).VArray?
    requires index < |MeaningOf(tf, cs).items| == |tf.kids| && index < |MeaningOf(tt, cs).items| == |tt.kids|
    requires Walking(tf, ta, index, x, cs) && Walking(tt, tb, index, y, cs)
    requires pl.cs == cs && path == PathText(pl.prefix) && AllPlain(pl.prefix)
    requires Going(s, before, ops0, MeaningOf(tf, cs), Halfway(MeaningOf(tf, cs).items, MeaningOf(tt, cs).items, index),
                   MeaningOf(tt, cs), pl)
    modifies patches`child, Under(before.kids)`next, Nodes(ta)`child, Nodes(tb)`child, Under(ta.kids)`next,
             Under(ta.kids)`prev, Under(tb.kids)`next, Under(tb.kids)`prev
    ensures Going(s, u, ops, MeaningOf(tf, cs), Halfway(MeaningOf(tf, cs).items, MeaningOf(tt, cs).items, index + 1),
                  MeaningOf(tt, cs), pl)
    ensures Stands(u) && u.node == patches && forall n :: n in Nodes(u) && n !in Nodes(before) ==> fresh(n)
    ensures Walking(tf, ua, index + 1, x.next, cs) && Walking(tt, ub, index + 1, y.next, cs)
    decreases |Nodes(tf)|, 0
  {
    hide Linked, Separate, Nodes, Under, TidyTree, MeaningOf, PathText, AllPlain, Going, Fit, Same, Kept, Child,
         SetChild, Plain, Walking, Halfway, ChildOf, Unlike, Parted;
    ghost var t, v, z := Decimal(index), MeaningOf(tf, cs), MeaningOf(tt, cs);
    DecimalIndex(index);
    ArrayTree(tf, cs);
    ArrayTree(tt, cs);
    FitItems(tf, tt, index, pl);
    FitTidy(tf, tt, pl);
    SmallerKid(tf, index);
    ArrayChild(v.items, z.items, index, cs);
    HalfwayUnlike(v.items, z.items, index, t, pl);
    ItemHere(v, z, index, cs);
    u, ua, ub, ops := PatchStep(patches, path + "/" + Decimal(index), t, x, y, cs, pl, index, index, s, before, tf, tt,
                                ta, tb, ops0, v, Halfway(v.items, z.items, index), z);
  }

  lemma HalfwayUnlike(v: seq<Value>, w: seq<Value>, i: nat, t: Text, pl: Place)
    requires i <= |v| && i <= |w| && (pl.calm ==> pl.cs)
    ensures Unlike(Halfway(v, w, i), t, pl)
  {
  }

  // Elements present on both sides are patched one by one.
  method PatchCommon(patches: Item, path: Text, from: Item, to: Item, cs: bool, ghost pl: Place, ghost s: Tree,
                     ghost tf: Tree, ghost tt: Tree)
    returns (x: Item?, y: Item?, index: nat, ghost u: Tree, ghost uf: Tree, ghost ut: Tree, ghost ops: seq<Op>)
    requires s.node == patches && tf.node == from && tt.node == to && Parted(s, tf, tt)
    requires Stands(s) && Stands(tf) && Stands(tt) && Fit(tf, tt, pl)
    requires pl.cs == cs && path == PathText(pl.prefix) && AllPlain(pl.prefix) && from.value.Array? && to.value.Array?
    modifies patches`child, Under(s.kids)`next, Nodes(tf)`child, Nodes(tt)`child, Under(tf.kids)`next,
             Under(tf.kids)`prev, Under(tt.kids)`next, Under(tt.kids)`prev
    ensures Walking(tf, uf, index, x, cs) && Walking(tt, ut, index, y, cs)
    ensures MeaningOf(tf, cs).VArray? && MeaningOf(tt, cs).VArray? && (x == null || y == null)
    ensures index <= |MeaningOf(tf, cs).items| == |tf.kids| && index <= |MeaningOf(tt, cs).items| == |tt.kids|
    ensures Going(s, u, ops, MeaningOf(tf, cs), Halfway(MeaningOf(tf, cs).items, MeaningOf(tt, cs).items, index),
                  MeaningOf(tt, cs), pl) && Stands(u) && u.node == patches
    ensures forall n :: n in Nodes(u) && n !in Nodes(s) ==> fresh(n)
    decreases |Nodes(tf)|, 1
  {
    hide Linked, Separate, Nodes, Under, TidyTree, MeaningOf, PathText, AllPlain, Going, Fit, Same, Kept, Child,
         SetChild, Plain, Walking;
    ArrayTree(tf, cs);
    ArrayTree(tt, cs);
    ghost var v, w := MeaningOf(tf, cs).items, MeaningOf(tt, cs).items;
    assert w[..0] + v[0..] == v;
    x, y, index := from.child, to.child, 0;
    u, uf, ut, ops := s, tf, tt, [];
    GoingNowhere(s, MeaningOf(tf, cs), MeaningOf(tt, cs), pl);
    FitTidy(tf, tt, pl);
    WalkStarts(tf, x, cs);
    WalkStarts(tt, y, cs);
    WalkEnds(tf, uf, 0, x, cs);
    WalkEnds(tt, ut, 0, y, cs);
    NodesExist(tf); UnderExist(tf.kids); NodesExist(tt); UnderExist(tt.kids);
    while x != null && y != null
      invariant Walking(tf, uf, index, x, cs) && Walking(tt, ut, index, y, cs) && index <= |v| && index <= |w|
      invariant Nodes(uf) == Nodes(tf) && Nodes(ut) == Nodes(tt) && Under(uf.kids) == Under(tf.kids)
      invariant Under(ut.kids) == Under(tt.kids)
      invariant Going(s, u, ops, MeaningOf(tf, cs), Halfway(v, w, index), MeaningOf(tt, cs), pl) && Stands(u)
      invariant u.node == patches
      invariant forall n :: n in Nodes(u) && n !in Nodes(s) ==> fresh(n)
      invariant x == null <==> index == |v|
      invariant y == null <==> index == |w|
      decreases |v| - index
    {
      UnderOnly(s, u);
      u, uf, ut, ops := CommonStep(patches, path, x, y, index, cs, pl, s, u, tf, tt, uf, ut, ops);
      x, y, index := x.next, y.next, index + 1;
      WalkEnds(tf, uf, index, x, cs);
      WalkEnds(tt, ut, index, y, cs);
    }
  }

  lemma ItemHere(v: Value, z: Value, i: nat, cs: bool)
    requires v.VArray? && z.VArray? && i < |v.items| && i < |z.items|
    ensures ChildOf(v, z, Decimal(i), v.items[i], z.items[i], cs)
  {
    assert ItemOf(v.items, z.items, Decimal(i), v.items[i], z.items[i], i);
  }

  lemma FitTidy(a: Tree, b: Tree, pl: Place)
    requires Fit(a, b, pl)
    ensures TidyTree(a, pl.cs) && TidyTree(b, pl.cs) && (pl.calm ==> pl.cs)
  {
  }

  // What `from` has more is removed at one and the same index.
  method RemoveRest(patches: Item, path: Text, x0: Item?, index: nat, ghost cs: bool, ghost pl: Place, ghost s: Tree,
                    ghost before: Tree, ghost tf: Tree, ghost uf: Tree, ghost ops0: seq<Op>, ghost v: seq<Value>,
                    ghost w: seq<Value>)
    returns (ghost u: Tree, ghost ops: seq<Op>)
    requires before.node == patches && Stands(before) && Nodes(before) !! Nodes(uf) && pl.cs == cs
    requires path == PathText(pl.prefix) && AllPlain(pl.prefix) && Walking(tf, uf, index, x0, cs)
    requires index <= |tf.kids| == |v| == |uf.kids| && index <= |w| && (index < |v| ==> index == |w|)
    requires Going(s, before, ops0, VArray(v), Halfway(v, w, index), VArray(w), pl) && (pl.calm ==> cs)
    modifies patches`child, Under(before.kids)`next
    ensures Going(s, u, ops, VArray(v), VArray(w[..index]), VArray(w), pl) && Stands(u) && u.node == patches
    ensures forall n :: n in Nodes(u) && n !in Nodes(before) ==> fresh(n)
  {
    hide Linked, Separate, Nodes, Under, PathText, AllPlain, Going, Plain, EditChild, TwinFree, Alike;
    u, ops := before, ops0;
    var x := x0;
    ghost var i := index;
    NodesExist(uf); UnderExist(uf.kids);
    TopsInside(uf);
    TopsInside(before);
    while x != null
      invariant index <= i <= |v| && Walking(tf, uf, i, x, cs)
      invariant Going(s, u, ops, VArray(v), VArray(w[..index] + v[i..]), VArray(w), pl) && Stands(u)
      invariant u.node == patches
      invariant forall n :: n in Nodes(u) && n !in Nodes(before) ==> fresh(n)
      decreases |v| - i
    {
      UnderOnly(before, u);
      RemoveLeftover(w, v, index, i, cs);
      RemovalWanted(v, w, cs);
      u, ops := AppendOp(patches, "remove", path, Decimal(index), null, pl, s, u, tf, ops, VArray(v),
                         VArray(w[..index] + v[i..]), VArray(w), Remove);
      WalkOver(tf, uf, i, x, cs);
      x, i := x.next, i + 1;
    }
    assert w[..index] + v[i..] == w[..index];
  }

  // What `to` has more is appended.
  method AddRest(patches: Item, path: Text, y0: Item?, index: nat, ghost cs: bool, ghost pl: Place, ghost s: Tree,
                 ghost before: Tree, ghost tt: Tree, ghost ut: Tree, ghost ops0: seq<Op>, ghost v: seq<Value>,
                 ghost w: seq<Value>)
    returns (ghost u: Tree, ghost ops: seq<Op>)
    requires before.node == patches && Stands(before) && Nodes(before) !! Nodes(ut) && pl.cs == cs
    requires path == PathText(pl.prefix) && AllPlain(pl.prefix) && Walking(tt, ut, index, y0, cs)
    requires index <= |tt.kids| == |w| == |ut.kids| && (index < |w| ==> index == |v|)
    requires forall k :: 0 <= k < |w| ==> TidyTree(tt.kids[k], cs) && w[k] == MeaningOf(tt.kids[k], cs)
    requires Going(s, before, ops0, VArray(v), VArray(w[..index]), VArray(w), pl) && (pl.calm ==> cs)
    modifies patches`child, Under(before.kids)`next
    ensures Going(s, u, ops, VArray(v), VArray(w), VArray(w), pl) && Stands(u) && u.node == patches
    ensures forall n :: n in Nodes(u) && n !in Nodes(before) ==> fresh(n)
  {
    hide Linked, Separate, Nodes, Under, PathText, AllPlain, Going, Plain, EditChild, TwinFree, Alike, TidyTree,
         MeaningOf;
    u, ops := before, ops0;
    var y := y0;
    ghost var i := index;
    NodesExist(ut); UnderExist(ut.kids);
    TopsInside(ut);
    TopsInside(before);
    while y != null
      invariant index <= i <= |w| && Walking(tt, ut, i, y, cs)
      invariant Going(s, u, ops, VArray(v), VArray(w[..i]), VArray(w), pl) && Stands(u) && u.node == patches
      invariant forall n :: n in Nodes(u) && n !in Nodes(before) ==> fresh(n)
      decreases |w| - i
    {
      UnderOnly(before, u);
      AddLeftover(w, i, cs);
      AdditionWanted(v, w, i, cs);
      WalkLinked(tt, ut, i, y, cs);
      u, ops := AppendOp(patches, "add", path, "-", y, pl, s, u, tt.kids[i], ops, VArray(v), VArray(w[..i]),
                         VArray(w), Add(w[i]));
      WalkOver(tt, ut, i, y, cs);
      y, i := y.next, i + 1;
    }
    assert w[..i] == w;
  }

  // create_patches on two arrays: what is common is patched in place, what `from` has
  // more is removed at one and the same index, what `to` has more is appended.
  method PatchArray(patches: Item, path: Text, from: Item, to: Item, cs: bool, ghost pl: Place, ghost s: Tree,
                    ghost tf: Tree, ghost tt: Tree)
    returns (ghost u: Tree, ghost uf: Tree, ghost ut: Tree, ghost ops: seq<Op>)
    requires s.node == patches && tf.node == from && tt.node == to && Parted(s, tf, tt)
    requires Stands(s) && Stands(tf) && Stands(tt) && Fit(tf, tt, pl)
    requires pl.cs == cs && path == PathText(pl.prefix) && AllPlain(pl.prefix) && from.value.Array? && to.value.Array?
    modifies patches`child, Under(s.kids)`next, Nodes(tf)`child, Nodes(tt)`child, Under(tf.kids)`next,
             Under(tf.kids)`prev, Under(tt.kids)`next, Under(tt.kids)`prev
    ensures Going(s, u, ops, MeaningOf(tf, cs), MeaningOf(tt, cs), MeaningOf(tt, cs), pl) && Stands(u)
    ensures u.node == patches
    ensures forall n :: n in Nodes(u) && n !in Nodes(s) ==> fresh(n)
    ensures Kept(tf, uf, cs) && Kept(tt, ut, cs) && Linked(uf) && Linked(ut)
    decreases |Nodes(tf)|, 2
  {
    hide Linked, Separate, Nodes, Under, TidyTree, MeaningOf, PathText, AllPlain, Going, Fit, Same, Kept, Plain,
         TwinFree, Walking;
    NodesExist(tf); UnderExist(tf.kids); NodesExist(tt); UnderExist(tt.kids);
    TopsInside(tf);
    TopsInside(tt);
    var x, y, index;
    x, y, index, u, uf, ut, ops := PatchCommon(patches, path, from, to, cs, pl, s, tf, tt);
    ArrayTree(tf, cs);
    ArrayTree(tt, cs);
    FitTidy(tf, tt, pl);
    assert pl.calm ==> cs;
    WalkEnds(tf, uf, index, x, cs);
    WalkEnds(tt, ut, index, y, cs);
    TopsInside(uf);
    TopsInside(ut);
    TopsInside(s);
    ghost var v, w := MeaningOf(tf, cs).items, MeaningOf(tt, cs).items;
    UnderOnly(s, u);
    u, ops := RemoveRest(patches, path, x, index, cs, pl, s, u, tf, uf, ops, v, w);
    UnderOnly(s, u);
    u, ops := AddRest(patches, path, y, index, cs, pl, s, u, tt, ut, ops, v, w);
    WalkEnds(tf, uf, index, x, cs);
    WalkEnds(tt, ut, index, y, cs);
  }

  // An object on its way: the keys passed are as in y, the others still as in x.
  ghost function Mixed(x: map<Text, Value>, y: map<Text, Value>, seen: set<Text>): map<Text, Value> {
    map k | k in x.Keys + y.Keys && (if k in seen then k in y else k in x) :: if k in seen then y[k] else x[k]
  }

  lemma MixedEnds(x: map<Text, Value>, y: map<Text, Value>, seen: set<Text>)
    ensures Mixed(x, y, {}) == x
    ensures x.Keys + y.Keys <= seen ==> Mixed(x, y, seen) == y
  {
  }

  lemma MixedLonely(x: map<Text, Value>, y: map<Text, Value>, seen: set<Text>, key: Text)
    requires TwinFree(VObject(x), VObject(y)) && key in x
    ensures Lonely(Mixed(x, y, seen), key)
  {
    hide Lower;
  }

  lemma PlainKey(key: Text, cs: bool)
    requires Plain(key)
    ensures KeyOf(key, Rfc(cs)) == Some(Fold(key, cs))
  {
    PlainUnescaped(key);
  }

  lemma MixedDrop(x: map<Text, Value>, y: map<Text, Value>, seen: set<Text>, key: Text, cs: bool)
    requires Plain(key) && Fold(key, cs) in x && Fold(key, cs) !in y && Fold(key, cs) !in seen
    ensures EditChild(VObject(Mixed(x, y, seen)), key, Remove, Rfc(cs))
            == Some(VObject(Mixed(x, y, seen + {Fold(key, cs)})))
    ensures Mixed(x, y, seen + {Fold(key, cs)}) != Mixed(x, y, seen)
  {
    hide Fold;
    PlainKey(key, cs);
    assert Fold(key, cs) in Mixed(x, y, seen) && Fold(key, cs) !in Mixed(x, y, seen + {Fold(key, cs)});
    assert Without(Mixed(x, y, seen), Fold(key, cs)) == Mixed(x, y, seen + {Fold(key, cs)});
  }

  lemma MixedAdd(x: map<Text, Value>, y: map<Text, Value>, seen: set<Text>, key: Text, cs: bool)
    requires Plain(key) && Fold(key, cs) in y && Fold(key, cs) !in x && Fold(key, cs) !in seen
    ensures EditChild(VObject(Mixed(x, y, seen)), key, Add(y[Fold(key, cs)]), Rfc(cs))
            == Some(VObject(Mixed(x, y, seen + {Fold(key, cs)})))
    ensures Mixed(x, y, seen + {Fold(key, cs)}) != Mixed(x, y, seen)
  {
    hide Fold;
    PlainKey(key, cs);
    assert Fold(key, cs) !in Mixed(x, y, seen) && Fold(key, cs) in Mixed(x, y, seen + {Fold(key, cs)});
    assert Mixed(x, y, seen)[Fold(key, cs) := y[Fold(key, cs)]] == Mixed(x, y, seen + {Fold(key, cs)});
  }

  lemma MixedPatch(x: map<Text, Value>, y: map<Text, Value>, seen: set<Text>, key: Text, cs: bool)
    requires Plain(key) && Fold(key, cs) in x && Fold(key, cs) in y && Fold(key, cs) !in seen
    ensures Child(VObject(Mixed(x, y, seen)), key, Rfc(cs)) == Some(x[Fold(key, cs)])
    ensures SetChild(VObject(Mixed(x, y, seen)), key, y[Fold(key, cs)], Rfc(cs))
            == VObject(Mixed(x, y, seen + {Fold(key, cs)}))
  {
    hide Fold;
    PlainKey(key, cs);
    assert Mixed(x, y, seen)[Fold(key, cs) := y[Fold(key, cs)]] == Mixed(x, y, seen + {Fold(key, cs)});
  }

  lemma WantedKey(x: map<Text, Value>, y: map<Text, Value>, key: Text, cs: bool)
    ensures Fold(key, cs) in x && Fold(key, cs) !in y ==> Wanted(VObject(x), VObject(y), [key], Remove, cs)
    ensures Fold(key, cs) in y && Fold(key, cs) !in x
            ==> Wanted(VObject(x), VObject(y), [key], Add(y[Fold(key, cs)]), cs)
  {
  }

  // Two sorted member lists on the way.
  ghost function Midway(p: seq<Member>, q: seq<Member>, i: nat, j: nat): Value
    requires i <= |p| && j <= |q|
  {
    VObject(Mixed(Fields(p), Fields(q), Seen(p, q, i, j)))
  }

  lemma DropHere(p: seq<Member>, q: seq<Member>, i: nat, j: nat, diff: int, key: Text, cs: bool)
    requires Turn(p, q, i, j, diff) && diff < 0 && (i < |p| ==> Plain(key) && p[i].key == Fold(key, cs))
    ensures i < |p| && Aligned(p, q, i + 1, j)
    ensures EditChild(Midway(p, q, i, j), key, Remove, Rfc(cs)) == Some(Midway(p, q, i + 1, j))
    ensures Midway(p, q, i + 1, j) != Midway(p, q, i, j)
    ensures Wanted(VObject(Fields(p)), VObject(Fields(q)), [key], Remove, cs)
  {
    hide StrCmp, Fields, KeySet, EditChild, Seen, Fold, Mixed, Tidy, Plain;
    StepX(p, q, i, j);
    SeenMore(p, q, i, j);
    FieldsKeys(p);
    FieldsKeys(q);
    FieldsAt(p);
    MixedDrop(Fields(p), Fields(q), Seen(p, q, i, j), key, cs);
    WantedKey(Fields(p), Fields(q), key, cs);
  }

  lemma BringHere(p: seq<Member>, q: seq<Member>, i: nat, j: nat, diff: int, key: Text, cs: bool)
    requires Turn(p, q, i, j, diff) && diff > 0 && (j < |q| ==> Plain(key) && q[j].key == Fold(key, cs))
    ensures j < |q| && Aligned(p, q, i, j + 1)
    ensures EditChild(Midway(p, q, i, j), key, Add(Meaning(q[j].value)), Rfc(cs)) == Some(Midway(p, q, i, j + 1))
    ensures Midway(p, q, i, j + 1) != Midway(p, q, i, j)
    ensures Wanted(VObject(Fields(p)), VObject(Fields(q)), [key], Add(Meaning(q[j].value)), cs)
  {
    hide StrCmp, Fields, KeySet, EditChild, Seen, Fold, Mixed, Tidy, Plain, Meaning;
    StepY(p, q, i, j);
    SeenMore(p, q, i, j);
    FieldsKeys(p);
    FieldsKeys(q);
    FieldsAt(q);
    MixedAdd(Fields(p), Fields(q), Seen(p, q, i, j), key, cs);
    WantedKey(Fields(p), Fields(q), key, cs);
  }

  lemma BothHere(p: seq<Member>, q: seq<Member>, i: nat, j: nat, diff: int, key: Text, cs: bool)
    requires Turn(p, q, i, j, diff) && diff == 0 && (i < |p| ==> Plain(key) && p[i].key == Fold(key, cs))
    ensures i < |p| && j < |q| && p[i].key == q[j].key && Aligned(p, q, i + 1, j + 1)
    ensures Child(Midway(p, q, i, j), key, Rfc(cs)) == Some(Meaning(p[i].value))
    ensures ChildOf(VObject(Fields(p)), VObject(Fields(q)), key, Meaning(p[i].value), Meaning(q[j].value), cs)
    ensures SetChild(Midway(p, q, i, j), key, Meaning(q[j].value), Rfc(cs)) == Midway(p, q, i + 1, j + 1)
  {
    hide StrCmp, Fields, KeySet, Child, SetChild, Seen, Fold, Mixed, Tidy, Plain, Meaning;
    StepBoth(p, q, i, j);
    SeenMore(p, q, i, j);
    FieldsKeys(p);
    FieldsKeys(q);
    FieldsAt(p);
    FieldsAt(q);
    MixedPatch(Fields(p), Fields(q), Seen(p, q, i, j), key, cs);
  }

  lemma StartHere(p: seq<Member>, q: seq<Member>)
    ensures Aligned(p, q, 0, 0) && Midway(p, q, 0, 0) == VObject(Fields(p))
  {
    hide Fields;
    assert Seen(p, q, 0, 0) == {};
    MixedEnds(Fields(p), Fields(q), {});
  }

  lemma EndHere(p: seq<Member>, q: seq<Member>)
    ensures Midway(p, q, |p|, |q|) == VObject(Fields(q))
  {
    hide Fields;
    assert p[..|p|] == p && q[..|q|] == q;
    FieldsKeys(p);
    FieldsKeys(q);
    MixedEnds(Fields(p), Fields(q), Seen(p, q, |p|, |q|));
  }

  // The trees of two objects, each sorted.
  ghost predicate Sides(a: Tree, b: Tree, pl: Place) {
    && a.node.value.Object? && b.node.value.Object? && Fit(a, b, pl)
    && Ascending(PairsOf(a.kids, pl.cs)) && Ascending(PairsOf(b.kids, pl.cs))
  }

  lemma SidesMean(a: Tree, b: Tree, pl: Place)
    requires Sides(a, b, pl)
    ensures TidyMembers(PairsOf(a.kids, pl.cs)) && TidyMembers(PairsOf(b.kids, pl.cs))
    ensures MeaningOf(a, pl.cs) == VObject(Fields(PairsOf(a.kids, pl.cs)))
    ensures MeaningOf(b, pl.cs) == VObject(Fields(PairsOf(b.kids, pl.cs)))
    ensures forall j :: 0 <= j < |b.kids| ==> TidyTree(b.kids[j], pl.cs)
  {
    hide MeaningOf, TidyTree, JsonOf, Fields, PlainNames, TwinFree, Ascending;
    ObjectTree(a, pl.cs);
    ObjectTree(b, pl.cs);
  }

  lemma SidesLonely(a: Tree, b: Tree, pl: Place, i: nat, j: nat, key: Text)
    requires Sides(a, b, pl) && i < |a.kids| && j <= |b.kids| && key == a.kids[i].node.key && Plain(key)
    ensures Unlike(Midway(PairsOf(a.kids, pl.cs), PairsOf(b.kids, pl.cs), i, j), key, pl)
  {
    hide MeaningOf, TidyTree, JsonOf, Fields, PlainNames, TwinFree, Ascending, Mixed, Seen, Plain, Decoded, KeySet;
    var p, q := PairsOf(a.kids, pl.cs), PairsOf(b.kids, pl.cs);
    SidesMean(a, b, pl);
    PlainDecoded(key);
    FieldsAt(p);
    if pl.calm { MixedLonely(Fields(p), Fields(q), Seen(p, q, i, j), p[i].key); }
  }

  // The child a walk stands at.
  lemma AtChild(s: Tree, t: Tree, i: nat, x: Item?, cs: bool)
    requires Walking(s, t, i, x, cs) && i < |s.kids| && |t.kids| == |s.kids|
    ensures x != null && x == s.kids[i].node && t.kids[i] == s.kids[i] && Linked(t.kids[i]) && x in Nodes(t)
    ensures PairsOf(s.kids, cs)[i] == Member(Fold(x.key, cs), JsonOf(s.kids[i], cs))
  {
    hide Separate, JsonOf, Alike;
    KidsUnder(t.kids);
    OwnNodes(t);
  }

  // The next name: gone from `to`, new in it, or in both.
  method PatchNext(patches: Item, path: Text, x0: Item?, y0: Item?, cs: bool, ghost pl: Place, ghost i: nat,
                   ghost j: nat, ghost s: Tree, ghost before: Tree, ghost sa: Tree, ghost sb: Tree, ghost ta: Tree,
                   ghost tb: Tree, ghost ops0: seq<Op>, ghost v: Value, ghost z: Value)
    returns (x: Item?, y: Item?, ghost i': nat, ghost j': nat, ghost u: Tree, ghost ua: Tree, ghost ub: Tree,
             ghost ops: seq<Op>)
    requires before.node == patches && Stands(before) && Parted(before, ta, tb) && Sides(sa, sb, pl) && pl.cs == cs
    requires path == PathText(pl.prefix) && AllPlain(pl.prefix) && v == MeaningOf(sa, cs) && z == MeaningOf(sb, cs)
    requires Walking(sa, ta, i, x0, cs) && Walking(sb, tb, j, y0, cs) && |ta.kids| == |sa.kids|
    requires |tb.kids| == |sb.kids|
    requires i <= |sa.kids| && j <= |sb.kids| && (x0 != null || y0 != null) && (x0 == null <==> i == |sa.kids|)
    requires (y0 == null <==> j == |sb.kids|) && Aligned(PairsOf(sa.kids, cs), PairsOf(sb.kids, cs), i, j)
    requires Going(s, before, ops0, v, Midway(PairsOf(sa.kids, cs), PairsOf(sb.kids, cs), i, j), z, pl)
    modifies patches`child, Under(before.kids)`next, Nodes(ta)`child, Nodes(tb)`child, Under(ta.kids)`next,
             Under(ta.kids)`prev, Under(tb.kids)`next, Under(tb.kids)`prev
    ensures i' <= |sa.kids| && j' <= |sb.kids| && i' + j' > i + j && i' >= i && j' >= j
    ensures Walking(sa, ua, i', x, cs) && Walking(sb, ub, j', y, cs)
    ensures Aligned(PairsOf(sa.kids, cs), PairsOf(sb.kids, cs), i', j')
    ensures Going(s, u, ops, v, Midway(PairsOf(sa.kids, cs), PairsOf(sb.kids, cs), i', j'), z, pl) && Stands(u)
    ensures u.node == patches
    ensures forall n :: n in Nodes(u) && n !in Nodes(before) ==> fresh(n)
    decreases |Nodes(sa)|, 0
  {
    hide Linked, Separate, Nodes, Under, TidyTree, Meaning, JsonOf, PathText, AllPlain, Going, Fit, Same, Kept, Plain,
         TwinFree, Walking, Midway, Aligned, PairsOf, Ascending, TidyMembers, StrCmp, Fold, Child, SetChild,
         EditChild;
    ghost var p, q := PairsOf(sa.kids, cs), PairsOf(sb.kids, cs);
    ghost var cur := Midway(p, q, i, j);
    x, y, i', j', u, ua, ub, ops := x0, y0, i, j, before, ta, tb, ops0;
    NodesExist(ta); UnderExist(ta.kids); NodesExist(tb); UnderExist(tb.kids); NodesExist(before);
    UnderExist(before.kids);
    TopsInside(before);
    TopsInside(ta);
    TopsInside(tb);
    SidesMean(sa, sb, pl);
    FitNames(sa, sb, pl);
    if x != null { AtChild(sa, ta, i, x, cs); }
    if y != null { AtChild(sb, tb, j, y, cs); }
    if x != null && y != null { KeyCompare(x.key, y.key, cs); }
    var diff := if x == null then 1 else if y == null then -1 else CompareStrings(x.key, y.key, cs);
    assert Turn(p, q, i, j, diff);
    if diff == 0 {
      BothHere(p, q, i, j, diff, x.key, cs);
      FitMembers(sa, sb, i, j, pl);
      SidesLonely(sa, sb, pl, i, j, x.key);
      WalkApart(sa, ta, i, x, cs);
      SmallerKid(sa, i);
      PlainToken(x.key);
      EncodedBack(x.key);
      var name := Encode(x.key);
      u, ua, ub, ops := PatchStep(patches, path + "/" + name, x.key, x, y, cs, pl, i, j, s, before, sa, sb, ta, tb,
                                  ops0, v, cur, z);
      x, y, i', j' := x.next, y.next, i + 1, j + 1;
    } else if diff < 0 {
      DropHere(p, q, i, j, diff, x.key, cs);
      SidesLonely(sa, sb, pl, i, j, x.key);
      u, ops := AppendOp(patches, "remove", path, x.key, null, pl, s, before, ta, ops0, v, cur, z, Remove);
      WalkOver(sa, ta, i, x, cs);
      x, i' := x.next, i + 1;
    } else {
      BringHere(p, q, i, j, diff, y.key, cs);
      u, ops := AppendOp(patches, "add", path, y.key, y, pl, s, before, tb.kids[j], ops0, v, cur, z,
                         Add(Meaning(q[j].value)));
      WalkOver(sb, tb, j, y, cs);
      y, j' := y.next, j + 1;
    }
  }

  // create_patches on two objects: a walk along both sorted lists.
  method PatchObject(patches: Item, path: Text, from: Item, to: Item, cs: bool, ghost pl: Place, ghost s: Tree,
                     ghost tf: Tree, ghost tt: Tree)
    returns (ghost u: Tree, ghost uf: Tree, ghost ut: Tree, ghost ops: seq<Op>)
    requires s.node == patches && tf.node == from && tt.node == to && Parted(s, tf, tt)
    requires Stands(s) && Stands(tf) && Stands(tt) && Fit(tf, tt, pl)
    requires pl.cs == cs && path == PathText(pl.prefix) && AllPlain(pl.prefix) && from.value.Object? && to.value.Object?
    modifies patches`child, Under(s.kids)`next, Nodes(tf)`child, Nodes(tt)`child, Under(tf.kids)`next,
             Under(tf.kids)`prev, Under(tt.kids)`next, Under(tt.kids)`prev
    ensures Going(s, u, ops, MeaningOf(tf, cs), MeaningOf(tt, cs), MeaningOf(tt, cs), pl) && Stands(u)
    ensures u.node == patches
    ensures forall n :: n in Nodes(u) && n !in Nodes(s) ==> fresh(n)
    ensures Kept(tf, uf, cs) && Kept(tt, ut, cs) && Linked(uf) && Linked(ut)
    decreases |Nodes(tf)|, 2
  {
    hide Linked, Separate, Nodes, Under, TidyTree, MeaningOf, JsonOf, PathText, AllPlain, Going, Fit, Same, Kept,
         Plain, TwinFree, Walking, Midway, Aligned, PairsOf, Ascending, TidyMembers;
    NodesExist(tf); UnderExist(tf.kids); NodesExist(tt); UnderExist(tt.kids); NodesExist(s); UnderExist(s.kids);
    TopsInside(s);
    TopsInside(tf);
    TopsInside(tt);
    FitTidy(tf, tt, pl);
    ghost var sa, sb := SortBoth(from, to, cs, tf, tt);
    FitKept(tf, tt, sa, sb, pl);
    KeptParts(tf, sa, cs);
    KeptParts(tt, sb, cs);
    FitTidy(sa, sb, pl);
    SidesMean(sa, sb, pl);
    ghost var p, q := PairsOf(sa.kids, cs), PairsOf(sb.kids, cs);
    var x, y := from.child, to.child;
    ghost var i, j := 0, 0;
    u, uf, ut, ops := s, sa, sb, [];
    WalkStarts(sa, x, cs);
    WalkStarts(sb, y, cs);
    WalkEnds(sa, uf, i, x, cs);
    WalkEnds(sb, ut, j, y, cs);
    GoingNowhere(s, MeaningOf(tf, cs), MeaningOf(tt, cs), pl);
    StartHere(p, q);
    while x != null || y != null
      invariant Walking(sa, uf, i, x, cs) && Walking(sb, ut, j, y, cs) && i <= |sa.kids| == |uf.kids|
      invariant j <= |sb.kids| == |ut.kids|
      invariant Kept(sa, uf, cs) && Kept(sb, ut, cs) && Linked(uf) && Linked(ut)
      invariant Nodes(uf) == Nodes(tf) && Nodes(ut) == Nodes(tt) && Aligned(p, q, i, j)
      invariant Under(uf.kids) == Under(tf.kids) && Under(ut.kids) == Under(tt.kids)
      invariant Going(s, u, ops, MeaningOf(tf, cs), Midway(p, q, i, j), MeaningOf(tt, cs), pl) && Stands(u)
      invariant u.node == patches
      invariant forall n :: n in Nodes(u) && n !in Nodes(s) ==> fresh(n)
      invariant (x == null <==> i == |sa.kids|) && (y == null <==> j == |sb.kids|)
      decreases |sa.kids| - i + |sb.kids| - j
    {
      UnderOnly(s, u);
      x, y, i, j, u, uf, ut,
          ops := PatchNext(patches, path, x, y, cs, pl, i, j, s, u, sa, sb, uf, ut, ops, MeaningOf(tf, cs),
                           MeaningOf(tt, cs));
      WalkEnds(sa, uf, i, x, cs);
      WalkEnds(sb, ut, j, y, cs);
    }
    EndHere(p, q);
    KeptTwice(tf, sa, uf, cs);
    KeptTwice(tt, sb, ut, cs);
  }

  lemma KeptParts(t: Tree, u: Tree, cs: bool)
    requires Kept(t, u, cs) && Separate(t)
    ensures u.node == t.node && Nodes(u) == Nodes(t) && Under(u.kids) == Under(t.kids) && Separate(u)
    ensures MeaningOf(u, cs) == MeaningOf(t, cs)
  {
    hide Separate, Nodes, Under, MeaningOf, TidyTree, Same;
    UnderAgain(t, u);
  }

  // ---- The round trip ----

  // cJSONUtils_GeneratePatches: an array of patches that leads from one document to the
  // other by the standard, each at a place where they differ; none for documents that mean
  // the same.
  method GeneratePatches(from: Item, to: Item, cs: bool, ghost calm: bool, ghost tf: Tree, ghost tt: Tree)
    returns (patches: Item, ghost s: Tree, ghost uf: Tree, ghost ut: Tree, ghost ops: seq<Op>)
    requires tf.node == from && tt.node == to && Stands(tf) && Stands(tt) && Nodes(tf) !! Nodes(tt)
    requires Fit(tf, tt, Place([], cs, calm))
    modifies Nodes(tf)`child, Nodes(tt)`child, Under(tf.kids)`next, Under(tf.kids)`prev, Under(tt.kids)`next,
             Under(tt.kids)`prev
    ensures s.node == patches && Stands(s) && fresh(Nodes(s)) && Generated(s, ops, cs)
    ensures Leads(MeaningOf(tf, cs), ops, MeaningOf(tt, cs), cs, calm)
    ensures AllWanted(MeaningOf(tf, cs), MeaningOf(tt, cs), ops, cs)
    ensures |s.kids| == |ops| && (ops == [] <==> MeaningOf(tf, cs) == MeaningOf(tt, cs))
    ensures Kept(tf, uf, cs) && Kept(tt, ut, cs) && Linked(uf) && Linked(ut)
  {
    hide Linked, Separate, Nodes, Under, TidyTree, MeaningOf, Fit, Leads, AllWanted, Same, Kept, Grew;
    ghost var pl := Place([], cs, calm);
    NodesExist(tf); UnderExist(tf.kids); NodesExist(tt); UnderExist(tt.kids);
    patches := new Item("", Array([]));
    ghost var s0 := Tree(patches, []);
    OnlyNode(patches);
    TopsInside(s0);
    TopsInside(tf);
    TopsInside(tt);
    s, uf, ut, ops := CreatePatches(patches, "", from, to, cs, pl, s0, tf, tt);
    Rooted(s0, s, ops, cs);
    NoneIfSame(MeaningOf(tf, cs), MeaningOf(tt, cs), ops, cs, calm);
  }

  // The patches of an array ask for these operations, all of them changes.
  ghost predicate Generated(s: Tree, ops: seq<Op>, cs: bool) {
    && s.node.value.Array? && Requested(Meanings(s.kids, cs), ops)
    && forall i :: 0 <= i < |s.kids| ==> TidyTree(s.kids[i], cs)
  }

  lemma Rooted(s: Tree, u: Tree, ops: seq<Op>, cs: bool)
    requires Grew(s, u, [], ops, cs) && s.kids == [] && s.node.value.Array?
    ensures Generated(u, ops, cs)
  {
    hide Asks, MeaningOf, TidyTree;
    forall i | 0 <= i < |ops| ensures TidyTree(u.kids[i], cs) && Asks(MeaningOf(u.kids[i], cs), ops[i]) {
      assert AsksAt(u.kids[|s.kids| + i], [], ops[i], cs) && Nearby(ops[i]);
      assert [] + ops[i].path.ts == ops[i].path.ts;
    }
  }

  lemma NoNullFrom(p: Value, op: Op)
    requires Asks(p, op)
    ensures !NullFrom(p)
  {
    hide PathOf, Plain;
  }

  // Patches generated for a document that means the same as this one, applied to it.
  method ApplyGenerated(doc: Item, patches: Item, cs: bool, ghost calm: bool, ghost t: Tree, ghost s: Tree,
                        ghost ops: seq<Op>, ghost w: Value)
    returns (status: int, r: Item, ghost u: Tree)
    requires t.node == doc && Stands(t) && TidyTree(t, cs) && s.node == patches && Stands(s) && Nodes(s) !! Nodes(t)
    requires Generated(s, ops, cs) && Leads(MeaningOf(t, cs), ops, w, cs, calm)
    modifies Nodes(t)`child, Nodes(t)`next, Nodes(t)`prev, Nodes(s)`child, Nodes(s)`next, Nodes(s)`prev
    ensures u.node == r && Stands(u) && TidyTree(u, cs)
    ensures !cs || calm ==> status == 0 && MeaningOf(u, cs) == w
  {
    hide Linked, Separate, Nodes, Under, TidyTree, MeaningOf, Leads, Asks, NullFrom, RunsCalm, RunPatches;
    ghost var ps := Meanings(s.kids, cs);
    forall i | 0 <= i < |ps| ensures !NullFrom(ps[i]) { NoNullFrom(ps[i], ops[i]); }
    RunsTo(MeaningOf(t, cs), ps, ops, w, cs, calm);
    if cs && calm { StaysCalm(MeaningOf(t, cs), ps, ops, w); }
    status, r, u := ApplyPatches(doc, patches, cs, t, s, ps);
  }

  // Patches generated between two documents and applied to the first succeed and leave
  // what the second means, whichever way case counts; where it does, as long as no names
  // differ in case only.
  method PatchRoundTrip(from: Item, to: Item, cs: bool, ghost tf: Tree, ghost tt: Tree)
    returns (status: int, r: Item, ghost u: Tree, ghost ut: Tree)
    requires tf.node == from && tt.node == to && Stands(tf) && Stands(tt) && Nodes(tf) !! Nodes(tt)
    requires Fit(tf, tt, Place([], cs, false))
    modifies Nodes(tf)`child, Nodes(tf)`next, Nodes(tf)`prev, Nodes(tt)`child, Nodes(tt)`next, Nodes(tt)`prev
    ensures u.node == r && Stands(u) && TidyTree(u, cs) && Kept(tt, ut, cs)
    ensures !cs || TwinFree(MeaningOf(tf, cs), MeaningOf(tt, cs))
            ==> status == 0 && MeaningOf(u, cs) == MeaningOf(tt, cs)
  {
    hide Linked, Separate, Nodes, Under, TidyTree, MeaningOf, Leads, Same, TwinFree, PlainNames, Generated;
    NodesExist(tf); UnderExist(tf.kids); NodesExist(tt); UnderExist(tt.kids);
    TopsInside(tf);
    TopsInside(tt);
    ghost var calm := cs && TwinFree(MeaningOf(tf, cs), MeaningOf(tt, cs));
    var patches;
    ghost var s, uf, ops;
    patches, s, uf, ut, ops := GeneratePatches(from, to, cs, calm, tf, tt);
    status, r, u := ApplyGenerated(from, patches, cs, calm, uf, s, ops, MeaningOf(tt, cs));
  }
}
