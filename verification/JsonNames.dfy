// Documents read with and without the case of their names: what the two readings have to do
// with each other.
module JsonNames {
  import opened JsonValues
  import opened JsonSort
  import opened JsonCompare
  import opened JsonMerge
  import opened JsonTrees
  import opened JsonGraft

  // Names that stand in the same order with and without case.
  ghost predicate Orderly(names: set<Text>) {
    forall a, b :: a in names && b in names ==> (StrCmp(a, b) < 0 <==> StrCmp(Lower(a), Lower(b)) < 0)
  }

  lemma OrderlyApart(names: set<Text>, a: Text, b: Text)
    requires Orderly(names) && a in names && b in names && Lower(a) == Lower(b)
    ensures a == b
  {
    hide StrCmp, Lower;
    CmpZero(a, b);
    CmpZero(b, a);
    CmpZero(Lower(a), Lower(b));
    CmpZero(Lower(b), Lower(a));
  }

  // "a" and "B" are not of that kind.
  lemma NotOrderly()
    ensures !Orderly({"a", "B"}) && CompareStrings("a", "B", false) < 0 < StrCmp("a", "B")
  {
    assert StrCmp("B", "a") < 0;
    var a, b := Lower("a"), Lower("B");
    assert a == "a" && b == "b";
    assert StrCmp(a, b) < 0 && StrCmp(b, a) > 0;
  }

  // All names in a value are among these.
  ghost predicate NamesIn(v: Value, names: set<Text>) {
    match v
    case VArray(items) => forall i :: 0 <= i < |items| ==> NamesIn(items[i], names)
    case VObject(f) => forall k :: k in f ==> k in names && NamesIn(f[k], names)
    case _ => true
  }

  // The one value is the other with its names in lower case.
  ghost predicate Lowers(v: Value, w: Value) {
    match v
    case VArray(items) =>
      w.VArray? && |w.items| == |items| && forall i :: 0 <= i < |items| ==> Lowers(items[i], w.items[i])
    case VObject(f) =>
      && w.VObject? && (forall k :: k in w.fields ==> HasLower(f, k))
      && forall k :: k in f ==> Lower(k) in w.fields && Lowers(f[k], w.fields[Lower(k)])
    case _ => w == v
  }

  ghost predicate HasLower(f: map<Text, Value>, k: Text) {
    exists a :: a in f && Lower(a) == k
  }

  // ---- A tree in memory in both readings ----

  ghost predicate ReadLower(t: Tree) {
    TidyTree(t, false) && Lowers(MeaningOf(t, true), MeaningOf(t, false))
  }

  lemma {:induction false} TreeLowers(t: Tree, names: set<Text>)
    requires Orderly(names) && TidyTree(t, true) && NamesIn(MeaningOf(t, true), names)
    ensures TidyTree(t, false) && Lowers(MeaningOf(t, true), MeaningOf(t, false))
    decreases t
  {
    hide MeaningOf, TidyTree, Orderly;
    if t.node.value.Array? {
      ArrayTree(t, true);
      ArrayTree(t, false);
      forall i | 0 <= i < |t.kids| ensures ReadLower(t.kids[i]) {
        TreeLowers(t.kids[i], names);
      }
    } else if t.node.value.Object? {
      forall i | 0 <= i < |t.kids| ensures ReadLower(t.kids[i]) {
        MemberTree(t, i, true);
        TreeLowers(t.kids[i], names);
      }
      DistinctLower(t, names);
      ObjectLowers(t);
    } else {
      ScalarLowers(t);
    }
  }

  lemma ScalarLowers(t: Tree)
    requires !t.node.value.Array? && !t.node.value.Object?
    ensures TidyTree(t, false) && Lowers(MeaningOf(t, true), MeaningOf(t, false))
  {
  }

  lemma DistinctLower(t: Tree, names: set<Text>)
    requires Orderly(names) && TidyTree(t, true) && NamesIn(MeaningOf(t, true), names) && t.node.value.Object?
    requires forall i :: 0 <= i < |t.kids| ==> TidyTree(t.kids[i], false)
    ensures TidyTree(t, false)
  {
    hide MeaningOf, Orderly, Tidy, Lower;
    var ms := PairsOf(t.kids, false);
    forall i, j | 0 <= i < j < |ms| ensures ms[i].key != ms[j].key {
      MemberTree(t, i, true);
      MemberTree(t, j, true);
      if ms[i].key == ms[j].key { OrderlyApart(names, t.kids[i].node.key, t.kids[j].node.key); }
    }
    assert forall i :: 0 <= i < |ms| ==> ms[i].value == JsonOf(t.kids[i], false);
    TidyObject(ms);
  }

  lemma ObjectLowers(t: Tree)
    requires TidyTree(t, true) && TidyTree(t, false) && t.node.value.Object?
    requires forall i :: 0 <= i < |t.kids| ==> Lowers(MeaningOf(t.kids[i], true), MeaningOf(t.kids[i], false))
    ensures Lowers(MeaningOf(t, true), MeaningOf(t, false))
  {
    hide MeaningOf, TidyTree, Lower, Fields, KeySet;
    ObjectTree(t, true);
    ObjectTree(t, false);
    var f, g := MeaningOf(t, true).fields, MeaningOf(t, false).fields;
    forall k | k in f ensures Lower(k) in g && Lowers(f[k], g[Lower(k)]) {
      MemberLowers(t, KidNamed(t, k, true));
    }
    forall k | k in g ensures HasLower(f, k) { MemberLowers(t, KidNamed(t, k, false)); }
  }

  ghost function KidNamed(t: Tree, k: Text, cs: bool): (i: nat)
    requires k in KeySet(PairsOf(t.kids, cs))
    ensures i < |t.kids| && Fold(t.kids[i].node.key, cs) == k
  {
    Find(PairsOf(t.kids, cs), k)
  }

  ghost predicate KeyIn(t: Tree, i: nat)
    requires i < |t.kids|
  {
    var v, w, key := MeaningOf(t, true), MeaningOf(t, false), t.kids[i].node.key;
    v.VObject? && w.VObject? && key in v.fields && Lower(key) in w.fields && Lowers(v.fields[key], w.fields[Lower(key)])
  }

  lemma MemberLowers(t: Tree, i: nat)
    requires TidyTree(t, true) && TidyTree(t, false) && t.node.value.Object? && i < |t.kids|
    requires Lowers(MeaningOf(t.kids[i], true), MeaningOf(t.kids[i], false))
    ensures KeyIn(t, i)
  {
    hide MeaningOf, TidyTree, Lower, Lowers;
    MemberTree(t, i, true);
    MemberTree(t, i, false);
  }

  // ---- One reading tells the other ----

  lemma {:induction false} LowersSame(v: Value, w: Value, y: Value)
    requires Lowers(v, w) && Lowers(v, y)
    ensures w == y
    decreases v
  {
    hide Lower;
    match v
    case VArray(items) =>
      forall i | 0 <= i < |items| ensures w.items[i] == y.items[i] {
        LowersSame(items[i], w.items[i], y.items[i]);
      }
    case VObject(f) =>
      forall k | k in w.fields ensures k in y.fields && w.fields[k] == y.fields[k] {
        var a :| a in f && Lower(a) == k;
        LowersSame(f[a], w.fields[k], y.fields[k]);
      }
      forall k | k in y.fields ensures k in w.fields { var a :| a in f && Lower(a) == k; }
      assert w.fields == y.fields;
    case _ =>
  }

  lemma {:induction false} LowersOnce(v: Value, x: Value, w: Value, names: set<Text>)
    requires Lowers(v, w) && Lowers(x, w) && NamesIn(v, names) && NamesIn(x, names) && Orderly(names)
    ensures v == x
    decreases v
  {
    hide Lower, Orderly, Lowers, NamesIn;
    match v
    case VArray(items) =>
      forall i | 0 <= i < |items| && x.VArray? && i < |x.items| ensures items[i] == x.items[i] {
        ItemLowers(v, w, names, i);
        ItemLowers(x, w, names, i);
        LowersOnce(items[i], x.items[i], w.items[i], names);
      }
      SameShape(v, x, w);
    case VObject(f) =>
      forall k | x.VObject? && k in f && k in x.fields ensures f[k] == x.fields[k] {
        FieldLowers(v, w, names, k);
        FieldLowers(x, w, names, k);
        LowersOnce(f[k], x.fields[k], w.fields[Lower(k)], names);
      }
      SameShape(v, x, w);
      SameNames(f, x.fields, w.fields, names);
      SameNames(x.fields, f, w.fields, names);
      assert f == x.fields;
    case _ => SameShape(v, x, w);
  }

  lemma SameShape(v: Value, x: Value, w: Value)
    requires Lowers(v, w) && Lowers(x, w)
    ensures v.VArray? ==> x.VArray? && |v.items| == |x.items|
    ensures v.VObject? ==> x.VObject? && w.VObject?
    ensures !v.VArray? && !v.VObject? ==> v == x
  {
  }

  lemma ItemLowers(v: Value, w: Value, names: set<Text>, i: nat)
    requires Lowers(v, w) && NamesIn(v, names) && v.VArray? && i < |v.items|
    ensures w.VArray? && i < |w.items| && Lowers(v.items[i], w.items[i]) && NamesIn(v.items[i], names)
  {
  }

  lemma FieldLowers(v: Value, w: Value, names: set<Text>, k: Text)
    requires Lowers(v, w) && NamesIn(v, names) && v.VObject? && k in v.fields
    ensures w.VObject? && Lower(k) in w.fields && Lowers(v.fields[k], w.fields[Lower(k)]) && NamesIn(v.fields[k], names)
  {
    hide Lower;
  }

  lemma SameNames(f: map<Text, Value>, g: map<Text, Value>, h: map<Text, Value>, names: set<Text>)
    requires Lowers(VObject(f), VObject(h)) && Lowers(VObject(g), VObject(h)) && Orderly(names)
    requires NamesIn(VObject(f), names) && NamesIn(VObject(g), names)
    ensures forall k :: k in f ==> k in g
  {
    hide Lower, Orderly;
    forall k | k in f ensures k in g {
      assert HasLower(g, Lower(k));
      var a :| a in g && Lower(a) == Lower(k);
      OrderlyApart(names, a, k);
    }
  }

  // Members under one name.
  lemma LowerMember(f: map<Text, Value>, g: map<Text, Value>, names: set<Text>, k: Text)
    requires Lowers(VObject(f), VObject(g)) && NamesIn(VObject(f), names) && Orderly(names) && k in names
    ensures k in f <==> Lower(k) in g
    ensures Lowers(Get(f, k), Get(g, Lower(k)))
  {
    hide Lower, Orderly;
    if Lower(k) in g {
      var a :| a in f && Lower(a) == Lower(k);
      OrderlyApart(names, a, k);
    }
  }

  lemma FieldsLower(x: Value, y: Value, names: set<Text>)
    requires Lowers(x, y) && NamesIn(x, names)
    ensures Lowers(VObject(FieldsOf(x)), VObject(FieldsOf(y))) && NamesIn(VObject(FieldsOf(x)), names)
  {
  }

  // Merging is the same in both readings.
  lemma {:induction false} MergeLowers(x: Value, p: Value, y: Value, q: Value, names: set<Text>)
    requires Lowers(x, y) && Lowers(p, q) && NamesIn(x, names) && NamesIn(p, names) && Orderly(names)
    ensures Lowers(MergeSpec(x, p), MergeSpec(y, q)) && NamesIn(MergeSpec(x, p), names)
    decreases p
  {
    hide Lower, Orderly, MergeFields;
    if p.VObject? {
      var f, g, a, b := FieldsOf(x), FieldsOf(y), p.fields, q.fields;
      FieldsLower(x, y, names);
      MergeObjects(x, p);
      MergeObjects(y, q);
      forall k | k in a ensures Lowers(MergeSpec(Get(f, k), a[k]), MergeSpec(Get(g, Lower(k)), b[Lower(k)]))
                                && NamesIn(MergeSpec(Get(f, k), a[k]), names)
      {
        LowerMember(f, g, names, k);
        MergeLowers(Get(f, k), a[k], Get(g, Lower(k)), b[Lower(k)], names);
      }
      MergedLowers(f, a, g, b, names);
    }
  }

  lemma MergeObjects(x: Value, p: Value)
    requires p.VObject?
    ensures MergeSpec(x, p) == VObject(MergeFields(FieldsOf(x), p.fields))
  {
  }

  lemma MergedLowers(f: map<Text, Value>, a: map<Text, Value>, g: map<Text, Value>, b: map<Text, Value>,
                     names: set<Text>)
    requires Lowers(VObject(f), VObject(g)) && Lowers(VObject(a), VObject(b)) && Orderly(names)
    requires NamesIn(VObject(f), names) && NamesIn(VObject(a), names)
    requires forall k :: k in a ==> Lowers(MergeSpec(Get(f, k), a[k]), MergeSpec(Get(g, Lower(k)), b[Lower(k)]))
                                    && NamesIn(MergeSpec(Get(f, k), a[k]), names)
    ensures Lowers(VObject(MergeFields(f, a)), VObject(MergeFields(g, b))) && NamesIn(VObject(MergeFields(f, a)), names)
  {
    hide Lower, Orderly, MergeFields, MergeSpec, Lowers, NamesIn;
    var r, z := MergeFields(f, a), MergeFields(g, b);
    forall k | k in r ensures k in names && Lower(k) in z && Lowers(r[k], z[Lower(k)]) && NamesIn(r[k], names) {
      MergedAt(f, a, k);
      MergedMember(f, a, g, b, names, k);
    }
    forall k | k in z ensures HasLower(r, k) { MergedFrom(f, a, g, b, names, k); }
    MakesLowers(r, z, names);
  }

  lemma MakesLowers(r: map<Text, Value>, z: map<Text, Value>, names: set<Text>)
    requires forall k :: k in r ==> k in names && Lower(k) in z && Lowers(r[k], z[Lower(k)]) && NamesIn(r[k], names)
    requires forall k :: k in z ==> HasLower(r, k)
    ensures Lowers(VObject(r), VObject(z)) && NamesIn(VObject(r), names)
  {
    hide Lower;
  }

  lemma MergedMember(f: map<Text, Value>, a: map<Text, Value>, g: map<Text, Value>, b: map<Text, Value>,
                     names: set<Text>, k: Text)
    requires Lowers(VObject(f), VObject(g)) && Lowers(VObject(a), VObject(b)) && Orderly(names)
    requires NamesIn(VObject(f), names) && NamesIn(VObject(a), names) && k in f.Keys + a.Keys
    requires k in a ==> Lowers(MergeSpec(Get(f, k), a[k]), MergeSpec(Get(g, Lower(k)), b[Lower(k)]))
                        && NamesIn(MergeSpec(Get(f, k), a[k]), names)
    ensures k in names && (k in MergeFields(f, a) <==> Lower(k) in MergeFields(g, b))
    ensures k in MergeFields(f, a) ==> NamesIn(MergeFields(f, a)[k], names)
                                       && Lowers(MergeFields(f, a)[k], MergeFields(g, b)[Lower(k)])
  {
    hide Lower, Orderly, MergeFields, MergeSpec;
    LowerMember(f, g, names, k);
    LowerMember(a, b, names, k);
    MergedAt(f, a, k);
    MergedAt(g, b, Lower(k));
  }

  lemma MergedAt(f: map<Text, Value>, p: map<Text, Value>, k: Text)
    ensures k in MergeFields(f, p) <==> (k in f || k in p) && (k in p ==> p[k] != VNull)
    ensures k in MergeFields(f, p) ==> MergeFields(f, p)[k] == if k in p then MergeSpec(Get(f, k), p[k]) else f[k]
  {
    hide MergeFields, MergeSpec;
    MergeFieldsAt(f, p);
  }

  lemma MergedFrom(f: map<Text, Value>, a: map<Text, Value>, g: map<Text, Value>, b: map<Text, Value>,
                   names: set<Text>, k: Text)
    requires Lowers(VObject(f), VObject(g)) && Lowers(VObject(a), VObject(b)) && Orderly(names)
    requires NamesIn(VObject(f), names) && NamesIn(VObject(a), names) && k in MergeFields(g, b)
    ensures HasLower(MergeFields(f, a), k)
  {
    hide Lower, Orderly, MergeFields, MergeSpec, NamesIn;
    MergedAt(g, b, k);
    assert HasLower(f, k) || HasLower(a, k);
    var n :| n in f.Keys + a.Keys && Lower(n) == k;
    NameIn(f, a, names, n);
    LowerMember(f, g, names, n);
    LowerMember(a, b, names, n);
    MergedAt(f, a, n);
  }

  lemma NameIn(f: map<Text, Value>, a: map<Text, Value>, names: set<Text>, n: Text)
    requires NamesIn(VObject(f), names) && NamesIn(VObject(a), names) && n in f.Keys + a.Keys
    ensures n in names
  {
  }
}
