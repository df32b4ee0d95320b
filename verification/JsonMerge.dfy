// JSON Merge Patch, RFC 7396, on values, and the patch from one value to another
// (component/cJSON/cJSON_Utils.c, generate_merge_patch).
module JsonMerge {
  import opened JsonValues
  import opened JsonCompare
  import opened JsonMembers

  // ---- Section 2 of RFC 7396, on unordered objects ----

  ghost function Get(f: map<Text, Value>, k: Text): Value {
    if k in f then f[k] else VNull
  }

  ghost function FieldsOf(v: Value): map<Text, Value> {
    if v.VObject? then v.fields else map[]
  }

  ghost function MergeSpec(target: Value, patch: Value): Value
    decreases patch
  {
    if patch.VObject? then
      var f := FieldsOf(target);
      VObject(map k | k in f.Keys + patch.fields.Keys && (k in patch.fields ==> patch.fields[k] != VNull) ::
        if k in patch.fields then MergeSpec(Get(f, k), patch.fields[k]) else f[k])
    else patch
  }

  // The merge of member maps that MergeSpec makes of two objects.
  ghost function MergeFields(f: map<Text, Value>, p: map<Text, Value>): map<Text, Value> {
    MergeSpec(VObject(f), VObject(p)).fields
  }

  lemma MergeFieldsAt(f: map<Text, Value>, p: map<Text, Value>)
    ensures MergeSpec(VObject(f), VObject(p)) == VObject(MergeFields(f, p))
    ensures forall k :: k in MergeFields(f, p) <==> (k in f || k in p) && (k in p ==> p[k] != VNull)
    ensures forall k :: k in MergeFields(f, p)
              ==> MergeFields(f, p)[k] == if k in p then MergeSpec(Get(f, k), p[k]) else f[k]
  {
  }

  lemma MergeNothing(f: map<Text, Value>)
    ensures MergeFields(f, map[]) == f
  {
    MergeFieldsAt(f, map[]);
  }

  // One more member of the patch.
  lemma MergeMore(f: map<Text, Value>, p: map<Text, Value>, k: Text, v: Value)
    requires k !in p
    ensures v == VNull ==> MergeFields(f, p[k := v]) == Without(MergeFields(f, p), k)
    ensures v != VNull ==> MergeFields(f, p[k := v]) == Without(MergeFields(f, p), k)[k := MergeSpec(Get(f, k), v)]
    ensures k in MergeFields(f, p) <==> k in f
    ensures Get(MergeFields(f, p), k) == Get(f, k)
  {
    hide MergeFields, MergeSpec;
    MergeFieldsAt(f, p);
    MergeFieldsAt(f, p[k := v]);
  }

  // What is not an object makes no difference as a target.
  lemma NoTarget(t: Value, p: Value)
    requires !t.VObject?
    ensures MergeSpec(t, p) == MergeSpec(VNull, p)
    ensures p.VObject? ==> MergeSpec(t, p) == VObject(MergeFields(map[], p.fields))
  {
  }

  lemma NotObject(p: Json, t: Value)
    requires !p.Object?
    ensures MergeSpec(t, Meaning(p)) == Meaning(p)
  {
  }

  lemma NoMembers()
    ensures TidyMembers([]) && Fields([]) == map[] && KeySet([]) == {}
  {
  }

  lemma NullMeaning(j: Json)
    ensures j.Null? <==> Meaning(j) == VNull
  {
  }

  // The members before position i, and the next one.
  lemma PrefixMembers(ms: seq<Member>, i: nat)
    requires TidyMembers(ms) && i < |ms|
    ensures Tidy(ms[i].value) && TidyMembers(ms[..i])
    ensures ms[i].key !in Fields(ms[..i]) && ms[i].value < Object(ms)
    ensures Fields(ms[..i + 1]) == Fields(ms[..i])[ms[i].key := Meaning(ms[i].value)]
  {
    hide Meaning, Tidy, Fields;
    FieldsKeys(ms[..i]);
    AppendMember(ms[..i], ms[i]);
    assert ms[..i + 1] == ms[..i] + [ms[i]];
  }

  // A merge patch never leaves null under a key it names: what it can produce from a
  // target has nulls only where the target had them.
  lemma NamedNeverNull(t: Value, p: Value, k: Text)
    requires p.VObject? && k in p.fields && k in FieldsOf(MergeSpec(t, p))
    ensures FieldsOf(MergeSpec(t, p))[k] != VNull
  {
    var f := FieldsOf(t);
    assert FieldsOf(MergeSpec(t, p))[k] == MergeSpec(Get(f, k), p.fields[k]);
    assert p.fields[k] != VNull;
  }

  // ---- generate_merge_patch ----

  // Null members are where the target has them already, however deep below objects.
  ghost predicate NullsKept(x: Value, y: Value)
    decreases y
  {
    y.VObject? ==> forall k :: k in y.fields ==>
                     (NullKept(FieldsOf(x), y.fields[k], k) && NullsKept(Get(FieldsOf(x), k), y.fields[k]))
  }

  ghost predicate NullKept(x: map<Text, Value>, v: Value, k: Text) {
    v == VNull ==> k in x && x[k] == VNull
  }

  // The same under one key.
  ghost predicate NullsStay(x: map<Text, Value>, y: map<Text, Value>, k: Text) {
    k in y ==> NullKept(x, y[k], k) && NullsKept(Get(x, k), y[k])
  }

  lemma {:induction false} KeptSame(v: Value)
    ensures NullsKept(v, v)
    decreases v
  {
    if v.VObject? {
      forall k | k in v.fields ensures NullsKept(Get(v.fields, k), v.fields[k]) { KeptSame(v.fields[k]); }
    }
  }

  // No patch whatever makes a null the target does not have.
  lemma {:induction false} OnlyKept(x: Value, p: Value, y: Value)
    requires MergeSpec(x, p) == y
    ensures NullsKept(x, y)
    decreases p
  {
    hide MergeSpec, NullsKept;
    if p.VObject? {
      MergeObject(x, p);
      var f := FieldsOf(x);
      forall k | k in y.fields ensures NullKept(f, y.fields[k], k) && NullsKept(Get(f, k), y.fields[k]) {
        if k in p.fields {
          NamedNeverNull(x, p, k);
          OnlyKept(Get(f, k), p.fields[k], y.fields[k]);
        } else {
          KeptSame(f[k]);
        }
      }
      AllKept(x, y);
    } else {
      ScalarPatch(x, p);
    }
  }

  // A null member cannot be brought into an empty object.
  lemma NewNull()
    ensures !NullsKept(VObject(map[]), VObject(map["a" := VNull]))
  {
    var y := VObject(map["a" := VNull]);
    assert "a" in y.fields && !NullKept(map[], y.fields["a"], "a");
  }

  lemma MergeObject(x: Value, p: Value)
    requires p.VObject?
    ensures MergeSpec(x, p).VObject?
    ensures forall k :: k in MergeSpec(x, p).fields ==>
              if k in p.fields then MergeSpec(x, p).fields[k] == MergeSpec(Get(FieldsOf(x), k), p.fields[k])
              else k in FieldsOf(x) && MergeSpec(x, p).fields[k] == FieldsOf(x)[k]
  {
  }

  lemma AllKept(x: Value, y: Value)
    requires y.VObject?
    ensures NullsKept(x, y) <==> forall k :: k in y.fields ==> NullsStay(FieldsOf(x), y.fields, k)
  {
    hide NullKept;
  }

  lemma ScalarPatch(x: Value, p: Value)
    requires !p.VObject?
    ensures MergeSpec(x, p) == p && NullsKept(x, p)
  {
  }

  // Where no null is new, a value comes back from a target that is no object.
  lemma {:induction false} MergeFromNothing(t: Value, v: Value)
    requires NullsKept(t, v) && !t.VObject?
    ensures MergeSpec(t, v) == v
    decreases v
  {
    if v.VObject? {
      NoTarget(t, v);
      MergeFieldsAt(map[], v.fields);
      forall k | k in v.fields ensures MergeSpec(VNull, v.fields[k]) == v.fields[k] {
        MergeFromNothing(VNull, v.fields[k]);
      }
      assert MergeFields(map[], v.fields) == v.fields;
    }
  }

  // What a patch must say under one key to turn the fields x into y.
  ghost predicate Settled(x: map<Text, Value>, y: map<Text, Value>, p: map<Text, Value>, k: Text) {
    if k in y then
      if k in p then p[k] != VNull && MergeSpec(Get(x, k), p[k]) == y[k] else k in x && x[k] == y[k]
    else
      k in x ==> k in p && p[k] == VNull
  }

  lemma AllSettled(x: map<Text, Value>, y: map<Text, Value>, p: map<Text, Value>)
    requires forall k :: k in x || k in y ==> Settled(x, y, p, k)
    requires forall k :: k in p ==> k in x || k in y
    ensures MergeSpec(VObject(x), VObject(p)) == VObject(y)
    ensures p == map[] ==> x == y
  {
    hide MergeSpec, MergeFields;
    MergeFieldsAt(x, p);
    MergeNothing(x);
    var r := MergeFields(x, p);
    forall k ensures k in r <==> k in y { if k in x || k in y { assert Settled(x, y, p, k); } }
    forall k | k in r ensures r[k] == y[k] { assert Settled(x, y, p, k); }
    assert r == y;
  }

  ghost predicate SameAt(x: map<Text, Value>, y: map<Text, Value>, k: Text) {
    k in x && k in y && x[k] == y[k]
  }

  // A patch that says nothing but what differs: of two objects, it names keys under which
  // they differ, a null for one that is gone; otherwise it is the value itself.
  ghost predicate Spare(x: Value, y: Value, p: Value)
    decreases y
  {
    if x.VObject? && y.VObject? then
      p.VObject? && forall k :: k in p.fields ==> (k in y.fields ==> SpareUnder(x, y, p, k)) && SpareKey(x, y, p, k)
    else p == y
  }

  ghost predicate SpareUnder(x: Value, y: Value, p: Value, k: Text)
    requires x.VObject? && y.VObject? && p.VObject? && k in p.fields && k in y.fields
    decreases y, 0
  {
    Spare(Get(x.fields, k), y.fields[k], p.fields[k])
  }

  ghost predicate SpareKey(x: Value, y: Value, p: Value, k: Text)
    requires x.VObject? && y.VObject? && p.VObject? && k in p.fields
  {
    !SameAt(x.fields, y.fields, k) && (k !in y.fields ==> k in x.fields && p.fields[k] == VNull)
  }

  // The same of one member.
  ghost predicate SpareMember(x: map<Text, Value>, y: map<Text, Value>, k: Text, v: Value) {
    !SameAt(x, y, k) && (if k in y then Spare(Get(x, k), y[k], v) else k in x && v == VNull)
  }

  // The patch built so far settles the keys passed, but where a null would be new, and
  // says nothing but what differs.
  ghost predicate Settling(x: seq<Member>, y: seq<Member>, pm: seq<Member>, seen: set<Text>) {
    && TidyMembers(pm) && KeySet(pm) <= seen
    && (forall k :: k in seen && (NullsStay(Fields(x), Fields(y), k) || k !in KeySet(pm))
          ==> Settled(Fields(x), Fields(y), Fields(pm), k))
    && (forall k :: k in KeySet(pm) ==> SpareMember(Fields(x), Fields(y), k, Fields(pm)[k]))
  }

  // A new member that settles its key leaves the others settled.
  lemma SettleOne(x: seq<Member>, y: seq<Member>, pm: seq<Member>, seen: set<Text>, m: Member)
    requires Settling(x, y, pm, seen) && m.key !in seen && Tidy(m.value)
    requires NullsStay(Fields(x), Fields(y), m.key)
             ==> Settled(Fields(x), Fields(y), Fields(pm)[m.key := Meaning(m.value)], m.key)
    requires SpareMember(Fields(x), Fields(y), m.key, Meaning(m.value))
    ensures Settling(x, y, pm + [m], seen + {m.key})
  {
    hide Meaning, Tidy, MergeSpec, Fields, KeySet, NullsStay, SameAt;
    AppendMember(pm, m);
    forall k | k in seen + {m.key} && (NullsStay(Fields(x), Fields(y), k) || k !in KeySet(pm + [m]))
      ensures Settled(Fields(x), Fields(y), Fields(pm + [m]), k)
    {
      if k != m.key { assert Settled(Fields(x), Fields(y), Fields(pm), k); }
    }
  }

  lemma SettleNone(x: seq<Member>, y: seq<Member>, pm: seq<Member>, seen: set<Text>, k: Text)
    requires Settling(x, y, pm, seen) && k !in seen && SameAt(Fields(x), Fields(y), k)
    ensures Settling(x, y, pm, seen + {k})
  {
    hide Meaning, Tidy, MergeSpec, Fields, KeySet, NullsStay;
    FieldsKeys(pm);
  }

  lemma DuplicateTo(from: Json, to: Json)
    requires !to.Object? || !from.Object?
    ensures NullsKept(Meaning(from), Meaning(to)) ==> MergeSpec(Meaning(from), Meaning(to)) == Meaning(to)
  {
    if !to.Object? {
      NotObject(to, Meaning(from));
    } else if NullsKept(Meaning(from), Meaning(to)) {
      MergeFromNothing(Meaning(from), Meaning(to));
    }
  }

  lemma Outset(x: seq<Member>, y: seq<Member>)
    ensures Aligned(x, y, 0, 0) && Settling(x, y, [], Seen(x, y, 0, 0))
  {
  }

  lemma Removal(x: seq<Member>, y: seq<Member>, pm: seq<Member>, seen: set<Text>, i: nat)
    requires Settling(x, y, pm, seen) && TidyMembers(x) && i < |x| && x[i].key !in KeySet(y) && x[i].key !in seen
    ensures Settling(x, y, pm + [Member(x[i].key, Null)], seen + {x[i].key})
  {
    hide Tidy, MergeSpec, Settling, NullsKept;
    FieldsKeys(y);
    PlainNull();
    SettleOne(x, y, pm, seen, Member(x[i].key, Null));
  }

  lemma PlainNull()
    ensures Tidy(Null) && Meaning(Null) == VNull
  {
  }

  lemma Addition(x: seq<Member>, y: seq<Member>, pm: seq<Member>, seen: set<Text>, j: nat)
    requires Settling(x, y, pm, seen) && TidyMembers(y) && j < |y| && y[j].key !in KeySet(x) && y[j].key !in seen
    ensures Settling(x, y, pm + [y[j]], seen + {y[j].key})
  {
    hide Tidy, MergeSpec, Settling, Meaning, NullsKept;
    FieldsKeys(x);
    FieldsAt(y);
    if NullsStay(Fields(x), Fields(y), y[j].key) { MergeFromNothing(VNull, Meaning(y[j].value)); }
    SettleOne(x, y, pm, seen, y[j]);
  }

  lemma SettleChange(x: seq<Member>, y: seq<Member>, pm: seq<Member>, seen: set<Text>, i: nat, j: nat, q: Json)
    requires Settling(x, y, pm, seen) && TidyMembers(x) && TidyMembers(y) && i < |x| && j < |y|
    requires x[i].key == y[j].key && x[i].key !in seen && Meaning(x[i].value) != Meaning(y[j].value)
    requires Tidy(q)
    requires NullsKept(Meaning(x[i].value), Meaning(y[j].value))
             ==> MergeSpec(Meaning(x[i].value), Meaning(q)) == Meaning(y[j].value)
    requires Meaning(q) == VNull ==> Meaning(y[j].value) == VNull
    requires Spare(Meaning(x[i].value), Meaning(y[j].value), Meaning(q))
    ensures Settling(x, y, pm + [Member(y[j].key, q)], seen + {y[j].key})
  {
    hide Tidy, MergeSpec, Settling, Meaning, NullsKept, Spare;
    FieldsAt(x);
    FieldsAt(y);
    SettleOne(x, y, pm, seen, Member(y[j].key, q));
  }

  // What the walk knows of a key on both sides.
  lemma AtBoth(x: seq<Member>, y: seq<Member>, i: nat, j: nat)
    requires TidyMembers(x) && TidyMembers(y) && i < |x| && j < |y| && x[i].key == y[j].key
    ensures x[i].key in Fields(x) && x[i].key in Fields(y)
    ensures Fields(x)[x[i].key] == Meaning(x[i].value) && Fields(y)[x[i].key] == Meaning(y[j].value)
  {
    hide Tidy, Meaning;
    FieldsAt(x);
    FieldsAt(y);
  }

  lemma Arrived(x: seq<Member>, y: seq<Member>, pm: seq<Member>)
    requires Settling(x, y, pm, Seen(x, y, |x|, |y|))
    ensures NullsKept(VObject(Fields(x)), VObject(Fields(y)))
            ==> MergeSpec(VObject(Fields(x)), VObject(Fields(pm))) == VObject(Fields(y))
    ensures pm == [] <==> Fields(x) == Fields(y)
    ensures Tidy(Object(pm)) && Spare(VObject(Fields(x)), VObject(Fields(y)), VObject(Fields(pm)))
  {
    hide MergeSpec, Settled, Meaning, Fields, KeySet, NullsKept, NullsStay;
    assert x[..|x|] == x && y[..|y|] == y;
    FieldsKeys(x);
    FieldsKeys(y);
    FieldsKeys(pm);
    TidyObject(pm);
    NoMembers();
    AllSpare(Fields(x), Fields(y), Fields(pm));
    AllKept(VObject(Fields(x)), VObject(Fields(y)));
    KeptElsewhere(Fields(x), Fields(y));
    if NullsKept(VObject(Fields(x)), VObject(Fields(y))) || pm == [] {
      AllSettled(Fields(x), Fields(y), Fields(pm));
    }
    if pm != [] {
      FirstKey(pm);
      assert !SameAt(Fields(x), Fields(y), pm[0].key);
    }
  }

  lemma AllSpare(x: map<Text, Value>, y: map<Text, Value>, p: map<Text, Value>)
    requires forall k :: k in p ==> SpareMember(x, y, k, p[k])
    ensures Spare(VObject(x), VObject(y), VObject(p))
  {
    forall k | k in p ensures (k in y ==> SpareUnder(VObject(x), VObject(y), VObject(p), k))
        && SpareKey(VObject(x), VObject(y), VObject(p), k) {
      assert SpareMember(x, y, k, p[k]);
    }
  }

  lemma KeptElsewhere(x: map<Text, Value>, y: map<Text, Value>)
    ensures forall k :: k !in y ==> NullsStay(x, y, k)
  {
  }

  lemma FirstKey(pm: seq<Member>)
    requires pm != []
    ensures pm[0].key in KeySet(pm)
  {
  }

  lemma OnlyIf(from: Json, to: Json, p: Json)
    ensures MergeSpec(Meaning(from), Meaning(p)) == Meaning(to) ==> NullsKept(Meaning(from), Meaning(to))
  {
    hide MergeSpec, NullsKept, Meaning;
    if MergeSpec(Meaning(from), Meaning(p)) == Meaning(to) { OnlyKept(Meaning(from), Meaning(p), Meaning(to)); }
  }

  lemma SameHere(x: seq<Member>, y: seq<Member>, k: Text)
    requires k in Fields(x) && k in Fields(y) && Fields(x)[k] == Fields(y)[k]
    ensures SameAt(Fields(x), Fields(y), k)
  {
  }
}
