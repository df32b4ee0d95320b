// What lists of operations lead to on values: below a child, one after the other, and where
// names are looked up without case (component/cJSON/cJSON_Utils.c,
// create_patches).
module JsonLeads {
  import opened JsonValues
  import opened JsonPointer
  import opened JsonPatch
  import opened Options

  // ---- Names that differ in case only ----

  // No other name that differs from this one in case only.
  ghost predicate Lonely(f: map<Text, Value>, key: Text) {
    forall k :: k in f && Lower(k) == Lower(key) ==> k == key
  }

  // Nor is there one where a path takes something out.
  ghost predicate Alone(v: Value, path: Path) {
    var p := Target(path);
    p.Some? && p.value != [] ==>
      var parent := ValueAt(v, p.value[..|p.value| - 1], Code(true));
      parent.Some? && parent.value.VObject? ==> Lonely(parent.value.fields, Decoded(Last(p.value)))
  }

  // A change that takes out what it names, even if names are looked up without case.
  ghost predicate Sure(v: Value, op: Op) {
    op.edit.Remove? || op.edit.Replace? ==> Alone(v, op.path)
  }

  // No two of these names differ in case only.
  ghost predicate OneByOne(names: set<Text>) {
    forall a, b :: a in names && b in names && Lower(a) == Lower(b) ==> a == b
  }

  // No object has a name that differs only in case from another one of its own or of the
  // object in the same place.
  ghost predicate TwinFree(x: Value, y: Value)
    decreases x
  {
    && (x.VArray? && y.VArray? ==> forall i :: 0 <= i < |x.items| && i < |y.items| ==> TwinFree(x.items[i], y.items[i]))
    && (x.VObject? && y.VObject? ==>
          && OneByOne(x.fields.Keys + y.fields.Keys)
          && forall k :: k in x.fields && k in y.fields ==> TwinFree(x.fields[k], y.fields[k]))
  }

  // ---- Runs of operations ----

  // The operations lead from v to w by the standard, each making a difference; where it
  // matters, each of them sure of what it takes out.
  ghost predicate Leads(v: Value, ops: seq<Op>, w: Value, cs: bool, calm: bool)
    decreases ops
  {
    if ops == [] then v == w else
      (calm ==> Sure(v, ops[0])) &&
      var x := Apply(v, ops[0], Rfc(cs));
      x.Some? && x.value != v && Leads(x.value, ops[1..], w, cs, calm)
  }

  lemma {:induction false} LeadsOn(v: Value, a: seq<Op>, w: Value, b: seq<Op>, x: Value, cs: bool, calm: bool)
    requires Leads(v, a, w, cs, calm) && Leads(w, b, x, cs, calm)
    ensures Leads(v, a + b, x, cs, calm)
    decreases a
  {
    hide Apply, Sure;
    if a == [] {
      assert [] + b == b;
    } else {
      LeadsOn(Apply(v, a[0], Rfc(cs)).value, a[1..], w, b, x, cs, calm);
      assert (a + b)[1..] == a[1..] + b;
    }
  }

  lemma LeadsRoot(v: Value, w: Value, cs: bool, calm: bool)
    requires v != w
    ensures Leads(v, [Op(Pointer([]), Replace(w))], w, cs, calm)
  {
    assert [Op(Pointer([]), Replace(w))][1..] == [];
  }

  lemma LeadsOne(v: Value, t: Text, e: Edit, cs: bool, calm: bool)
    requires Changes(e) && EditChild(v, t, e, Rfc(cs)).Some? && EditChild(v, t, e, Rfc(cs)).value != v
    requires calm && !e.Add? && v.VObject? ==> Lonely(v.fields, Decoded(t))
    ensures Leads(v, [Op(Pointer([t]), e)], EditChild(v, t, e, Rfc(cs)).value, cs, calm)
  {
    hide EditChild, Lonely, Decoded;
    var op := Op(Pointer([t]), e);
    assert [t][..0] == [];
    assert [op][1..] == [];
    assert Apply(v, op, Rfc(cs)) == EditChild(v, t, e, Rfc(cs));
  }

  // ---- Operations below a child ----

  // A change; only replacement may aim at a value as a whole.
  predicate Nearby(op: Op) {
    Changes(op.edit) && op.path.Pointer? && (op.edit.Replace? || op.path.ts != [])
  }

  ghost predicate Local(ops: seq<Op>) {
    forall i :: 0 <= i < |ops| ==> Nearby(ops[i])
  }

  function Further(prefix: seq<Text>, op: Op): Op
    requires op.path.Pointer?
  {
    Op(Pointer(prefix + op.path.ts), op.edit)
  }

  ghost function Prefixed(t: Text, ops: seq<Op>): seq<Op>
    requires Local(ops)
  {
    seq(|ops|, i requires 0 <= i < |ops| => Further([t], ops[i]))
  }

  lemma BelowAt(v: Value, t: Text, ts: seq<Text>, rd: Reading)
    requires Child(v, t, rd).Some?
    ensures ValueAt(v, [t] + ts, rd) == ValueAt(Child(v, t, rd).value, ts, rd)
    ensures ValueAt(v, [t] + ts, rd).Some?
            ==> forall w :: ValuePut(v, [t] + ts, w, rd)
                  == SetChild(v, t, ValuePut(Child(v, t, rd).value, ts, w, rd), rd)
  {
    hide Child, SetChild;
    assert ([t] + ts)[1..] == ts;
  }

  // An operation below a child changes that child alone.
  lemma ApplyBelow(v: Value, t: Text, op: Op, cs: bool)
    requires Child(v, t, Rfc(cs)).Some? && Nearby(op)
    ensures var c := Apply(Child(v, t, Rfc(cs)).value, op, Rfc(cs));
            c.Some? ==> Apply(v, Further([t], op), Rfc(cs)) == Some(SetChild(v, t, c.value, Rfc(cs)))
  {
    hide Child, SetChild, EditChild;
    var ts, whole := op.path.ts, [t] + op.path.ts;
    if ts == [] {
      assert whole[..0] == [] && whole[0] == t;
      WholeChild(v, t, op.edit.value, cs);
    } else {
      assert whole[..|whole| - 1] == [t] + ts[..|ts| - 1] && whole[|whole| - 1] == ts[|ts| - 1];
      BelowAt(v, t, ts[..|ts| - 1], Rfc(cs));
    }
  }

  // Replacing a child by the standard is setting it.
  lemma WholeChild(v: Value, t: Text, w: Value, cs: bool)
    requires Child(v, t, Rfc(cs)).Some?
    ensures EditChild(v, t, Replace(w), Rfc(cs)) == Some(SetChild(v, t, w, Rfc(cs)))
  {
    hide Index, KeyOf;
  }

  lemma SameChild(v: Value, t: Text, rd: Reading)
    requires Child(v, t, rd).Some?
    ensures SetChild(v, t, Child(v, t, rd).value, rd) == v
  {
    hide Index, KeyOf;
  }

  // Operations sure below a child are sure below the parent there.
  lemma SureBelow(v: Value, t: Text, op: Op)
    requires Child(v, t, Rfc(true)).Some? && Nearby(op) && Sure(Child(v, t, Rfc(true)).value, op)
    requires v.VObject? ==> Lonely(v.fields, Decoded(t))
    ensures Sure(v, Further([t], op))
  {
    hide Child, Lonely, Decoded;
    var ts, whole := op.path.ts, [t] + op.path.ts;
    ChildRead(v, t, true);
    if ts == [] {
      assert whole[..0] == [] && whole[0] == t;
    } else {
      assert whole[..|whole| - 1] == [t] + ts[..|ts| - 1] && whole[|whole| - 1] == ts[|ts| - 1];
      BelowAt(v, t, ts[..|ts| - 1], Code(true));
    }
  }

  // What the standard finds the code finds.
  lemma ChildRead(v: Value, t: Text, cs: bool)
    requires Child(v, t, Rfc(cs)).Some?
    ensures Child(v, t, Code(cs)) == Child(v, t, Rfc(cs))
  {
    hide IndexValue;
    IndexAgrees(t, cs);
  }

  // Setting a child leaves the names.
  lemma NamesStay(v: Value, t: Text, w: Value, rd: Reading, key: Text)
    requires Child(v, t, rd).Some? && (v.VObject? ==> Lonely(v.fields, key))
    ensures SetChild(v, t, w, rd).VObject? ==> Lonely(SetChild(v, t, w, rd).fields, key)
  {
    hide Index, KeyOf;
  }

  // Operations that lead a child somewhere lead the parent there below the child.
  lemma {:induction false} LeadsBelow(v: Value, t: Text, ops: seq<Op>, w: Value, cs: bool, calm: bool)
    requires Child(v, t, Rfc(cs)).Some? && Local(ops) && Leads(Child(v, t, Rfc(cs)).value, ops, w, cs, calm)
    requires calm ==> cs && (v.VObject? ==> Lonely(v.fields, Decoded(t)))
    ensures Leads(v, Prefixed(t, ops), SetChild(v, t, w, Rfc(cs)), cs, calm)
    decreases ops
  {
    hide Apply, Child, SetChild, Sure, Lonely, Decoded;
    if ops == [] {
      SameChild(v, t, Rfc(cs));
    } else {
      var c := Child(v, t, Rfc(cs)).value;
      ApplyBelow(v, t, ops[0], cs);
      var c' := Apply(c, ops[0], Rfc(cs)).value;
      ChildSet(v, t, c', Rfc(cs));
      assert c' != c;
      if calm {
        SureBelow(v, t, ops[0]);
        NamesStay(v, t, c', Rfc(cs), Decoded(t));
      }
      LeadsBelow(SetChild(v, t, c', Rfc(cs)), t, ops[1..], w, cs, calm);
      assert Prefixed(t, ops)[1..] == Prefixed(t, ops[1..]);
    }
  }

  // ---- Only what is wanted ----

  // An operation that the difference of two values asks for at this place: where both are
  // arrays or both are objects, at one of their children; elsewhere the value replaced.
  ghost predicate Wanted(v: Value, w: Value, ts: seq<Text>, e: Edit, cs: bool)
    decreases ts
  {
    if v.VArray? && w.VArray? then
      || (ts == [Decimal(|w.items|)] && e.Remove? && |w.items| < |v.items|)
      || (ts == ["-"] && e.Add? && exists k: nat :: |v.items| <= k < |w.items| && e.value == w.items[k])
      || exists i: nat :: i < |v.items| && i < |w.items| && WantedItem(v.items[i], w.items[i], i, ts, e, cs)
    else if v.VObject? && w.VObject? then
      ts != [] && var k := Fold(ts[0], cs);
      || (|ts| == 1 && e.Remove? && k in v.fields && k !in w.fields)
      || (|ts| == 1 && e.Add? && k !in v.fields && k in w.fields && e.value == w.fields[k])
      || (k in v.fields && k in w.fields && Wanted(v.fields[k], w.fields[k], ts[1..], e, cs))
    else v != w && ts == [] && e == Replace(w)
  }

  ghost predicate WantedItem(v: Value, w: Value, i: nat, ts: seq<Text>, e: Edit, cs: bool)
    decreases ts, 0
  {
    ts != [] && ts[0] == Decimal(i) && Wanted(v, w, ts[1..], e, cs)
  }

  ghost predicate AllWanted(v: Value, w: Value, ops: seq<Op>, cs: bool) {
    Local(ops) && forall i :: 0 <= i < |ops| ==> Wanted(v, w, ops[i].path.ts, ops[i].edit, cs)
  }

  // Nothing is wanted between a value and itself.
  lemma {:induction false} NothingWanted(v: Value, ts: seq<Text>, e: Edit, cs: bool)
    ensures !Wanted(v, v, ts, e, cs)
    decreases ts
  {
    if v.VArray? {
      forall i: nat | i < |v.items| ensures !WantedItem(v.items[i], v.items[i], i, ts, e, cs) {
        if ts != [] { NothingWanted(v.items[i], ts[1..], e, cs); }
      }
    } else if v.VObject? && ts != [] && Fold(ts[0], cs) in v.fields {
      NothingWanted(v.fields[Fold(ts[0], cs)], ts[1..], e, cs);
    }
  }

  // Operations that are all wanted and lead there are none exactly where nothing differs.
  lemma NoneIfSame(v: Value, w: Value, ops: seq<Op>, cs: bool, calm: bool)
    requires Leads(v, ops, w, cs, calm) && AllWanted(v, w, ops, cs)
    ensures ops == [] <==> v == w
  {
    if v == w && ops != [] { NothingWanted(v, ops[0].path.ts, ops[0].edit, cs); }
  }

  // ---- From the standard to the code ----

  // Tokens that need no escape.
  ghost predicate AllPlain(ts: seq<Text>) {
    forall i :: 0 <= i < |ts| ==> Plain(ts[i])
  }

  // The requests are these operations, on paths that need no escape.
  ghost predicate Requested(ps: seq<Value>, ops: seq<Op>) {
    |ps| == |ops| && forall i :: 0 <= i < |ps| ==> Asks(ps[i], ops[i])
  }

  ghost predicate Asks(p: Value, op: Op) {
    Request(p) == Some(op) && Changes(op.edit) && op.path.Pointer? && AllPlain(op.path.ts)
  }

  // Changes the standard makes are made by the code.
  lemma {:induction false} RunsTo(v: Value, ps: seq<Value>, ops: seq<Op>, w: Value, cs: bool, calm: bool)
    requires Requested(ps, ops) && Leads(v, ops, w, cs, calm)
    ensures RunPatches(v, ps, Code(cs)) == Some(w) && RunLeaves(v, ps, cs) == w
    decreases ops
  {
    hide Apply, Sure, Request, Plain;
    if ops != [] {
      assert Asks(ps[0], ops[0]);
      PlainChange(v, ops[0], cs);
      forall i | 0 <= i < |ps[1..]| ensures Asks(ps[1..][i], ops[1..][i]) { assert Asks(ps[i + 1], ops[i + 1]); }
      RunsTo(Apply(v, ops[0], Rfc(cs)).value, ps[1..], ops[1..], w, cs, calm);
    }
  }

  lemma PlainChange(v: Value, op: Op, cs: bool)
    requires Changes(op.edit) && op.path.Pointer? && AllPlain(op.path.ts) && Apply(v, op, Rfc(cs)).Some?
    ensures Apply(v, op, Code(cs)) == Apply(v, op, Rfc(cs))
  {
    hide EditAt, Steady, Plain;
    if op.path.ts != [] {
      PlainDecoded(Last(op.path.ts));
      PlainSteady(Last(op.path.ts), 0);
    }
    ChangeAgrees(v, op.path.ts, op.edit, cs);
  }

  // A patch that takes out what it names, even if names are looked up without case.
  ghost predicate Calm(v: Value, p: Value) {
    HasText(p, "path") && HasText(p, "op") ==>
      && (p.fields["op"].s in ["remove", "replace"] ==> Alone(v, PathOf(p.fields["path"].s)))
      && (p.fields["op"].s == "move" && HasText(p, "from") ==> Alone(v, PathOf(p.fields["from"].s)))
  }

  ghost predicate RunsCalm(v: Value, ps: seq<Value>)
    decreases ps
  {
    ps != [] ==>
      && Calm(v, ps[0])
      && (Request(ps[0]).Some? && Apply(v, Request(ps[0]).value, Code(true)).Some?
          ==> RunsCalm(Apply(v, Request(ps[0]).value, Code(true)).value, ps[1..]))
  }

  lemma AskedCalm(v: Value, p: Value, op: Op)
    requires Asks(p, op) && Sure(v, op)
    ensures Calm(v, p)
  {
    hide Alone, PathOf, Plain;
  }

  lemma {:induction false} StaysCalm(v: Value, ps: seq<Value>, ops: seq<Op>, w: Value)
    requires Requested(ps, ops) && Leads(v, ops, w, true, true)
    ensures RunsCalm(v, ps)
    decreases ops
  {
    hide Apply, Sure, Calm, Request, Plain;
    if ops != [] {
      assert Asks(ps[0], ops[0]);
      AskedCalm(v, ps[0], ops[0]);
      PlainChange(v, ops[0], true);
      forall i | 0 <= i < |ps[1..]| ensures Asks(ps[1..][i], ops[1..][i]) { assert Asks(ps[i + 1], ops[i + 1]); }
      StaysCalm(Apply(v, ops[0], Rfc(true)).value, ps[1..], ops[1..], w);
    }
  }
}
