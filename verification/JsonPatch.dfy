// The operations of JSON Patch documents on values, as RFC 6902 has them and as the code
// reads them (component/cJSON/cJSON_Utils.c, apply_patch).
module JsonPatch {
  import opened JsonValues
  import opened JsonMembers
  import opened JsonPointer
  import opened Options

  // ---- Section 4 of RFC 6902, on values; and the same with what the code reads ----

  datatype Edit =
    | Add(value: Value) | Remove | Replace(value: Value) | Test(value: Value)
    | Copy(from: Path) | Move(from: Path)

  datatype Op = Op(path: Path, edit: Edit)

  predicate Changes(e: Edit) {
    e.Add? || e.Remove? || e.Replace?
  }

  // The last token of a path, which the code decodes in place before it looks at it.
  function LastText(t: Text, rd: Reading): Text {
    if rd.rfc then t else Decoded(t)
  }

  // An index is read up to a slash, which decoding can leave in a token.
  function UpToSlash(s: Text): Text {
    s[..TokenEnd(s, 0)]
  }

  ghost function LastIndex(t: Text, rd: Reading): Option<nat> {
    if rd.rfc then Index(t, rd) else IndexValue(UpToSlash(Decoded(t)))
  }

  ghost function LastKey(t: Text, rd: Reading): Option<Text> {
    if rd.rfc then KeyOf(t, rd) else Some(Fold(Decoded(t), rd.cs))
  }

  // A change at a child of a value: the new value, or none where the target does not
  // exist.
  ghost function EditChild(v: Value, t: Text, e: Edit, rd: Reading): Option<Value>
    requires Changes(e)
  {
    match v
    case VArray(items) =>
      var i := LastIndex(t, rd);
      (match e
       case Add(w) =>
         if LastText(t, rd) == "-" then Some(VArray(items + [w]))
         else if i.Some? && i.value <= |items| then Some(VArray(items[..i.value] + [w] + items[i.value..])) else None
       case Remove =>
         if i.Some? && i.value < |items| then Some(VArray(items[..i.value] + items[i.value + 1..])) else None
       case Replace(w) =>
         if i.Some? && i.value < |items| then Some(VArray(items[i.value := w])) else None)
    case VObject(f) =>
      var k := LastKey(t, rd);
      if k.None? then None else
        (match e
         case Add(w) => Some(VObject(f[k.value := w]))
         case Remove => if k.value in f then Some(VObject(Without(f, k.value))) else None
         case Replace(w) => if k.value in f then Some(VObject(f[k.value := w])) else None)
    case _ => None
  }

  // When there is one: the target present, or for an addition its parent.
  ghost predicate Possible(v: Value, t: Text, e: Edit, rd: Reading) {
    match v
    case VArray(items) =>
      var i := LastIndex(t, rd);
      (e.Add? && LastText(t, rd) == "-") || (i.Some? && (i.value < |items| || (e.Add? && i.value == |items|)))
    case VObject(f) => LastKey(t, rd).Some? && (e.Add? || LastKey(t, rd).value in f)
    case _ => false
  }

  // The child a last token names.
  ghost function LastChild(v: Value, t: Text, rd: Reading): Option<Value> {
    match v
    case VArray(items) =>
      var i := LastIndex(t, rd);
      if i.Some? && i.value < |items| then Some(items[i.value]) else None
    case VObject(f) =>
      var k := LastKey(t, rd);
      if k.Some? && k.value in f then Some(f[k.value]) else None
    case _ => None
  }

  lemma WhenPossible(v: Value, t: Text, e: Edit, rd: Reading)
    requires Changes(e)
    ensures EditChild(v, t, e, rd).Some? <==> Possible(v, t, e, rd)
    ensures e.Remove? ==> (LastChild(v, t, rd).Some? <==> Possible(v, t, e, rd))
  {
    hide LastIndex, LastKey, LastText;
    if v.VArray? && !rd.rfc && LastText(t, rd) == "-" { DashIsNoIndex(rd); }
    NoDash(t, rd);
  }

  lemma DashIsNoIndex(rd: Reading)
    ensures Index("-", rd) == None
  {
  }

  lemma NoDash(t: Text, rd: Reading)
    ensures LastText(t, rd) == "-" ==> LastIndex(t, rd) == None
  {
    DashIsNoIndex(rd);
  }

  // A change at the place a path leads to. The whole document can be replaced; removed, it
  // leaves nothing valid.
  ghost function EditAt(v: Value, path: seq<Text>, e: Edit, rd: Reading): Option<Value>
    requires Changes(e)
  {
    if path == [] then Some(if e.Remove? then VInvalid else e.value) else
      var above, t := path[..|path| - 1], path[|path| - 1];
      var parent := ValueAt(v, above, rd);
      if parent.None? then None else
        var edited := EditChild(parent.value, t, e, rd);
        if edited.None? then None else Some(ValuePut(v, above, edited.value, rd))
  }

  ghost predicate EditDoes(v: Value, path: seq<Text>, e: Edit, rd: Reading) {
    path == [] || (
      var above, t := path[..|path| - 1], path[|path| - 1];
      var parent := ValueAt(v, above, rd);
      parent.Some? && Possible(parent.value, t, e, rd))
  }

  ghost function TakenAt(v: Value, path: seq<Text>, rd: Reading): Option<Value>
    requires path != []
  {
    var parent := ValueAt(v, path[..|path| - 1], rd);
    if parent.None? then None else LastChild(parent.value, path[|path| - 1], rd)
  }

  // Where a copied or moved value goes: the code knows no place for it at the root.
  ghost function PutAt(v: Value, path: Path, x: Value, rd: Reading): Option<Value> {
    var p := Target(path);
    if p.None? || (p.value == [] && !rd.rfc) then None else EditAt(v, p.value, Add(x), rd)
  }

  ghost predicate PutDoes(v: Value, path: Path, rd: Reading) {
    var p := Target(path);
    p.Some? && (p.value == [] ==> rd.rfc) && EditDoes(v, p.value, Add(VNull), rd)
  }

  predicate Proper(op: Op) {
    op.path.Pointer? && (op.edit.Copy? || op.edit.Move? ==> op.edit.from.Pointer?)
  }

  // An operation. By the standard paths are pointers, and a value cannot be moved into
  // itself.
  ghost function Apply(v: Value, op: Op, rd: Reading): Option<Value> {
    if rd.rfc && !Proper(op) then None else
      match op.edit
      case Test(w) => if ValueAt(v, Looked(op.path), rd) == Some(w) then Some(v) else None
      case Copy(from) =>
        var x := ValueAt(v, Looked(from), rd);
        if x.None? then None else PutAt(v, op.path, x.value, rd)
      case Move(from) => MoveAt(v, op.path, from, rd)
      case _ =>
        var p := Target(op.path);
        if p.None? then None else EditAt(v, p.value, op.edit, rd)
  }

  ghost function MoveAt(v: Value, path: Path, from: Path, rd: Reading): Option<Value> {
    var p := Target(from);
    if p.None? then None
    else if p.value == [] then (if rd.rfc && path == Pointer([]) then Some(v) else None)
    else if rd.rfc && path.Pointer? && p.value < path.ts then None
    else
      var x, cut := TakenAt(v, p.value, rd), EditAt(v, p.value, Remove, rd);
      if x.None? || cut.None? then None else PutAt(cut.value, path, x.value, rd)
  }

  // What an operation needs: what it tests equal, sources present, and a place to put.
  ghost predicate Does(v: Value, op: Op, rd: Reading) {
    (rd.rfc ==> Proper(op)) && match op.edit
      case Test(w) => ValueAt(v, Looked(op.path), rd) == Some(w)
      case Copy(from) => ValueAt(v, Looked(from), rd).Some? && PutDoes(v, op.path, rd)
      case Move(from) => MoveDoes(v, op.path, from, rd)
      case _ => Target(op.path).Some? && EditDoes(v, Target(op.path).value, op.edit, rd)
  }

  ghost predicate MoveDoes(v: Value, path: Path, from: Path, rd: Reading) {
    var p := Target(from);
    && p.Some? && if p.value == [] then rd.rfc && path == Pointer([]) else
      && !(rd.rfc && path.Pointer? && p.value < path.ts)
      && EditDoes(v, p.value, Remove, rd) && PutDoes(EditAt(v, p.value, Remove, rd).value, path, rd)
  }

  lemma WhenEditDoes(v: Value, path: seq<Text>, e: Edit, rd: Reading)
    requires Changes(e)
    ensures EditAt(v, path, e, rd).Some? <==> EditDoes(v, path, e, rd)
    ensures path != [] && e.Remove? ==> (TakenAt(v, path, rd).Some? <==> EditDoes(v, path, e, rd))
  {
    hide EditChild, Possible, LastChild, ValueAt, ValuePut;
    if path != [] {
      var parent := ValueAt(v, path[..|path| - 1], rd);
      if parent.Some? { WhenPossible(parent.value, path[|path| - 1], e, rd); }
    }
  }

  lemma WhenPutDoes(v: Value, path: Path, x: Value, rd: Reading)
    ensures PutAt(v, path, x, rd).Some? <==> PutDoes(v, path, rd)
  {
    hide EditAt, Possible;
    if Target(path).Some? {
      WhenEditDoes(v, Target(path).value, Add(x), rd);
      AnyAddition(v, Target(path).value, x, rd);
    }
  }

  lemma AnyAddition(v: Value, path: seq<Text>, x: Value, rd: Reading)
    ensures EditDoes(v, path, Add(x), rd) == EditDoes(v, path, Add(VNull), rd)
  {
    hide LastIndex, LastKey, LastText, ValueAt;
  }

  // Every operation succeeds exactly where it has what it needs.
  lemma WhenDoes(v: Value, op: Op, rd: Reading)
    ensures Apply(v, op, rd).Some? <==> Does(v, op, rd)
  {
    hide EditAt, EditDoes, PutAt, PutDoes, TakenAt, ValueAt;
    match op.edit {
      case Test(_) =>
      case Copy(from) =>
        var x := ValueAt(v, Looked(from), rd);
        if x.Some? { WhenPutDoes(v, op.path, x.value, rd); }
      case Move(from) =>
        var p := Target(from);
        if p.Some? && p.value != [] {
          WhenEditDoes(v, p.value, Remove, rd);
          var x, cut := TakenAt(v, p.value, rd), EditAt(v, p.value, Remove, rd);
          if x.Some? && cut.Some? { WhenPutDoes(cut.value, op.path, x.value, rd); }
        }
      case _ =>
        if Target(op.path).Some? { WhenEditDoes(v, Target(op.path).value, op.edit, rd); }
    }
  }

  // ---- Where the two readings differ ----

  // On the way down a token that only the decoder takes for an index meets an array.
  ghost predicate Lax(v: Value, ts: seq<Text>, cs: bool)
    decreases ts
  {
    ts != [] && ((v.VArray? && LaxIndex(ts[0]))
                 || (Child(v, ts[0], Code(cs)).Some? && Lax(Child(v, ts[0], Code(cs)).value, ts[1..], cs)))
  }

  // At the last token: a lax index in range, or a name the code decodes wrong where one of
  // the two names would do and not both come to the same.
  ghost predicate Parts(v: Value, t: Text, e: Edit, cs: bool)
    requires Changes(e)
  {
    match v
    case VArray(_) => !IsIndex(t) && Possible(v, t, e, Code(cs)) && LastText(t, Code(cs)) != "-"
    case VObject(f) =>
      var k, s := Fold(Decoded(t), cs), KeyOf(t, Rfc(cs));
      var both := s.Some? && k in f && s.value in f;
      Some(k) != s && (match e
        case Remove => k in f || (s.Some? && s.value in f)
        case Replace(w) => (k in f || (s.Some? && s.value in f)) && !(both && f[k] == w == f[s.value])
        case Add(w) => !(both && f[k] == w == f[s.value]))
    case _ => false
  }

  // The same for a path.
  ghost predicate PartsAt(v: Value, path: seq<Text>, e: Edit, cs: bool)
    requires Changes(e)
  {
    path != [] && (
      var above, t := path[..|path| - 1], path[|path| - 1];
      var parent := ValueAt(v, above, Code(cs));
      parent.Some? && if Lax(v, above, cs) then Possible(parent.value, t, e, Code(cs))
                        else Parts(parent.value, t, e, cs))
  }

  // What tells the code from the standard: a path without a slash in front, a lax index,
  // a name decoded wrong or a move into the value moved where the code goes ahead, and a
  // copy or move to the root, which it refuses.
  ghost predicate Differs(v: Value, op: Op, cs: bool) {
    if !Proper(op) then Does(v, op, Code(cs)) else
      match op.edit
      case Test(_) => Lax(v, op.path.ts, cs) && Does(v, op, Code(cs))
      case Copy(from) =>
        if op.path.ts == [] then Does(v, op, Rfc(cs))
        else if Lax(v, from.ts, cs) then Does(v, op, Code(cs))
        else
          var x := ValueAt(v, from.ts, Code(cs));
          x.Some? && PartsAt(v, op.path.ts, Add(x.value), cs)
      case Move(from) =>
        if from.ts == [] then op.path.ts == []
        else if op.path.ts == [] then Does(v, op, Rfc(cs))
        else if from.ts < op.path.ts || PartsAt(v, from.ts, Remove, cs) then Does(v, op, Code(cs))
        else
          var x, cut := TakenAt(v, from.ts, Code(cs)), EditAt(v, from.ts, Remove, Code(cs));
          x.Some? && cut.Some? && PartsAt(cut.value, op.path.ts, Add(x.value), cs)
      case _ => PartsAt(v, op.path.ts, op.edit, cs)
  }

  lemma ChildAgrees(v: Value, t: Text, cs: bool)
    ensures Child(v, t, Rfc(cs)) == if v.VArray? && LaxIndex(t) then None else Child(v, t, Code(cs))
    ensures Child(v, t, Rfc(cs)).Some? ==> forall w :: SetChild(v, t, w, Rfc(cs)) == SetChild(v, t, w, Code(cs))
  {
    hide IndexValue, IsIndex;
    IndexAgrees(t, cs);
  }

  lemma {:induction false} PlaceAgrees(v: Value, ts: seq<Text>, cs: bool)
    ensures ValueAt(v, ts, Rfc(cs)) == if Lax(v, ts, cs) then None else ValueAt(v, ts, Code(cs))
    ensures ValueAt(v, ts, Rfc(cs)).Some?
            ==> forall w :: ValuePut(v, ts, w, Rfc(cs)) == ValuePut(v, ts, w, Code(cs))
    decreases ts
  {
    hide Child, SetChild, LaxIndex;
    if ts != [] {
      ChildAgrees(v, ts[0], cs);
      if Child(v, ts[0], Code(cs)).Some? { PlaceAgrees(Child(v, ts[0], Code(cs)).value, ts[1..], cs); }
    }
  }

  // A token the code reads as "-" is "-".
  lemma {:induction false} TildeStays(t: Text, p: nat)
    requires p <= |t|
    ensures if forall i :: p <= i < |t| ==> t[i] != '~' then DecodeFrom(t, p, p) == t
            else exists q :: 0 <= q < |DecodeFrom(t, p, p)| && DecodeFrom(t, p, p)[q] == '~'
    decreases |t| - p
  {
    if p < |t| {
      if t[p] != '~' {
        TildeStays(t, p + 1);
        assert DecodeFrom(t, p, p) == DecodeFrom(t, p + 1, p + 1);
      } else if p + 1 < |t| && t[p + 1] == '0' {
        DecodeKeepsOne(t, t[p := '~'], p, p + 2);
        assert DecodeFrom(t, p, p) == DecodeFrom(t[p := '~'], p + 1, p + 2) && DecodeFrom(t, p, p)[p] == '~';
      } else if p + 1 < |t| && t[p + 1] == '1' {
        DecodeKeepsOne(t, t[p + 1 := '/'], p, p + 2);
        assert DecodeFrom(t, p, p) == DecodeFrom(t[p + 1 := '/'], p + 1, p + 2) && DecodeFrom(t, p, p)[p] == '~';
      } else {
        assert DecodeFrom(t, p, p) == t && t[p] == '~';
      }
    } else {
      assert t[..p] == t;
    }
  }

  lemma DashDecoded(t: Text)
    ensures Decoded(t) == "-" <==> t == "-"
    ensures IsIndex(t) ==> Decoded(t) == t && UpToSlash(t) == t
  {
    hide DecodeFrom;
    TildeStays(t, 0);
  }

  lemma LastIndexAgrees(t: Text, cs: bool)
    ensures LastIndex(t, Rfc(cs)) == if IsIndex(t) then LastIndex(t, Code(cs)) else None
    ensures IsIndex(t) ==> LastIndex(t, Code(cs)).Some?
    ensures LastText(t, Rfc(cs)) == "-" <==> LastText(t, Code(cs)) == "-"
    ensures LastText(t, Code(cs)) == "-" ==> LastIndex(t, Code(cs)) == None
  {
    DashDecoded(t);
    DashIsNoIndex(Code(cs));
  }

  lemma ChildEditAgrees(v: Value, t: Text, e: Edit, cs: bool)
    requires Changes(e)
    ensures EditChild(v, t, e, Code(cs)) == EditChild(v, t, e, Rfc(cs)) <==> !Parts(v, t, e, cs)
    ensures Parts(v, t, e, cs) && !v.VObject?
            ==> EditChild(v, t, e, Code(cs)).Some? && EditChild(v, t, e, Rfc(cs)).None?
  {
    if v.VArray? { ArrayEditAgrees(v, t, e, cs); } else if v.VObject? { ObjectEditAgrees(v, t, e, cs); }
  }

  lemma ArrayEditAgrees(v: Value, t: Text, e: Edit, cs: bool)
    requires Changes(e) && v.VArray?
    ensures EditChild(v, t, e, Code(cs)) == EditChild(v, t, e, Rfc(cs)) <==> !Parts(v, t, e, cs)
    ensures Parts(v, t, e, cs) ==> EditChild(v, t, e, Code(cs)).Some? && EditChild(v, t, e, Rfc(cs)).None?
  {
    hide LastIndex, LastText, IndexValue, IsIndex, Decoded;
    LastIndexAgrees(t, cs);
  }

  lemma ObjectEditAgrees(v: Value, t: Text, e: Edit, cs: bool)
    requires Changes(e) && v.VObject?
    ensures EditChild(v, t, e, Code(cs)) == EditChild(v, t, e, Rfc(cs)) <==> !Parts(v, t, e, cs)
  {
    hide Fold, Decoded, Unescaped;
    var f, k, s := v.fields, Fold(Decoded(t), cs), KeyOf(t, Rfc(cs));
    if s.Some? && s.value != k { TwoKeys(f, k, s.value, if e.Remove? then VNull else e.value); }
  }

  // What is done under one key and under another.
  lemma TwoKeys(f: map<Text, Value>, k: Text, s: Text, w: Value)
    requires k != s
    ensures k in f && s in f ==> Without(f, k) != Without(f, s)
    ensures f[k := w] == f[s := w] <==> k in f && s in f && f[k] == w == f[s]
  {
    if k in f && s in f { assert s in Without(f, k) && s !in Without(f, s); }
    var a, b := f[k := w], f[s := w];
    assert a[k] == w && b[s] == w;
    if k in f && s in f && f[k] == w == f[s] { assert a == f == b; }
    if a == b { assert k in b && s in a && b[k] == f[k] && a[s] == f[s]; }
  }

  lemma {:induction false} PutGet(v: Value, ts: seq<Text>, w: Value, rd: Reading)
    requires ValueAt(v, ts, rd).Some?
    ensures ValueAt(ValuePut(v, ts, w, rd), ts, rd) == Some(w)
    decreases ts
  {
    hide Child, SetChild;
    if ts != [] {
      var c := Child(v, ts[0], rd).value;
      PutGet(c, ts[1..], w, rd);
      ChildSet(v, ts[0], ValuePut(c, ts[1..], w, rd), rd);
    }
  }

  lemma ChildSet(v: Value, t: Text, w: Value, rd: Reading)
    requires Child(v, t, rd).Some?
    ensures Child(SetChild(v, t, w, rd), t, rd) == Some(w)
    ensures forall x :: SetChild(SetChild(v, t, w, rd), t, x, rd) == SetChild(v, t, x, rd)
  {
    hide Index, KeyOf;
  }

  // A change at a path is the same for both exactly where nothing tells them apart there.
  lemma EditAgrees(v: Value, path: seq<Text>, e: Edit, cs: bool)
    requires Changes(e)
    ensures EditAt(v, path, e, Code(cs)) == EditAt(v, path, e, Rfc(cs)) <==> !PartsAt(v, path, e, cs)
  {
    hide EditChild, Possible, Parts, ValueAt, ValuePut, Lax;
    if path != [] {
      var above, t := path[..|path| - 1], path[|path| - 1];
      PlaceAgrees(v, above, cs);
      var parent := ValueAt(v, above, Code(cs));
      if parent.Some? {
        WhenPossible(parent.value, t, e, Code(cs));
        ChildEditAgrees(parent.value, t, e, cs);
        var a, b := EditChild(parent.value, t, e, Code(cs)), EditChild(parent.value, t, e, Rfc(cs));
        if a.Some? { PutGet(v, above, a.value, Code(cs)); }
        if b.Some? { PutGet(v, above, b.value, Code(cs)); }
      }
    }
  }

  lemma PutAgrees(v: Value, path: seq<Text>, x: Value, cs: bool)
    ensures path != [] ==>
              (PutAt(v, Pointer(path), x, Code(cs)) == PutAt(v, Pointer(path), x, Rfc(cs))
               <==> !PartsAt(v, path, Add(x), cs))
    ensures path == []
            ==> PutAt(v, Pointer(path), x, Code(cs)) == None && PutAt(v, Pointer(path), x, Rfc(cs)) == Some(x)
  {
    hide PartsAt;
    EditAgrees(v, path, Add(x), cs);
  }

  // The operation as the code reads it is that of the standard exactly where nothing tells
  // them apart; for a value moved, as long as its name is decoded right.
  lemma RfcAgreement(v: Value, op: Op, cs: bool)
    requires op.edit.Move? && op.edit.from.Pointer? && op.edit.from.ts != []
             ==> IsToken(Last(op.edit.from.ts)) && Steady(Last(op.edit.from.ts), 0, 0)
    ensures Apply(v, op, Code(cs)) == Apply(v, op, Rfc(cs)) <==> !Differs(v, op, cs)
  {
    hide ValueAt, EditAt, EditDoes, PutAt, PutDoes, Lax, PartsAt, TakenAt, MoveAt, MoveDoes, Steady;
    WhenDoes(v, op, Code(cs));
    WhenDoes(v, op, Rfc(cs));
    if Proper(op) {
      var ts := op.path.ts;
      PlaceAgrees(v, ts, cs);
      match op.edit {
        case Test(_) =>
        case Copy(from) =>
          PlaceAgrees(v, from.ts, cs);
          var x := ValueAt(v, from.ts, Code(cs));
          if x.Some? { PutAgrees(v, ts, x.value, cs); }
        case Move(from) => MoveAgrees(v, ts, from.ts, cs);
        case _ => EditAgrees(v, ts, op.edit, cs);
      }
    }
  }

  function Last(ts: seq<Text>): Text
    requires ts != []
  {
    ts[|ts| - 1]
  }

  lemma MoveAgrees(v: Value, ts: seq<Text>, from: seq<Text>, cs: bool)
    requires from != [] ==> IsToken(Last(from)) && Steady(Last(from), 0, 0)
    ensures var op := Op(Pointer(ts), Move(Pointer(from)));
            Apply(v, op, Code(cs)) == Apply(v, op, Rfc(cs)) <==> !Differs(v, op, cs)
  {
    hide ValueAt, EditAt, EditDoes, PutAt, PutDoes, Lax, PartsAt, TakenAt, Steady;
    var op := Op(Pointer(ts), Move(Pointer(from)));
    WhenDoes(v, op, Code(cs));
    WhenDoes(v, op, Rfc(cs));
    if from != [] {
      EditAgrees(v, from, Remove, cs);
      TakenAgrees(v, from, cs);
      var x, cut := TakenAt(v, from, Code(cs)), EditAt(v, from, Remove, Code(cs));
      WhenEditDoes(v, from, Remove, Code(cs));
      WhenEditDoes(v, from, Remove, Rfc(cs));
      if x.Some? && cut.Some? { PutAgrees(cut.value, ts, x.value, cs); }
    }
  }

  // A removal the readings disagree on is one the standard refuses; one they agree on takes
  // the same value.
  lemma TakenAgrees(v: Value, from: seq<Text>, cs: bool)
    requires from != [] && IsToken(Last(from)) && Steady(Last(from), 0, 0)
    ensures PartsAt(v, from, Remove, cs) ==> EditAt(v, from, Remove, Rfc(cs)).None?
    ensures !PartsAt(v, from, Remove, cs) && EditAt(v, from, Remove, Code(cs)).Some?
            ==> TakenAt(v, from, Rfc(cs)) == TakenAt(v, from, Code(cs))
  {
    hide ValueAt, Lax, Steady, LastIndex, IndexValue, IsIndex, Decoded, Fold;
    var above, t := from[..|from| - 1], Last(from);
    PlaceAgrees(v, above, cs);
    DecodesRight(t);
    LastIndexAgrees(t, cs);
    var parent := ValueAt(v, above, Code(cs));
    if parent.Some? {
      WhenPossible(parent.value, t, Remove, Code(cs));
      ChildEditAgrees(parent.value, t, Remove, cs);
    }
  }

  // A change the standard makes is one the code makes, where the last name is decoded
  // right.
  lemma ChangeAgrees(v: Value, path: seq<Text>, e: Edit, cs: bool)
    requires Changes(e) && EditAt(v, path, e, Rfc(cs)).Some?
    requires path != [] ==> IsToken(Last(path)) && Steady(Last(path), 0, 0)
    ensures EditAt(v, path, e, Code(cs)) == EditAt(v, path, e, Rfc(cs))
  {
    hide ValueAt, ValuePut, Lax, Steady, Decoded, Fold, IndexValue, IsIndex, LastIndex;
    if path != [] {
      var above, t := path[..|path| - 1], Last(path);
      PlaceAgrees(v, above, cs);
      DecodesRight(t);
      EditAgrees(v, path, e, cs);
      var parent := ValueAt(v, above, Code(cs));
      if parent.Some? {
        ChildEditAgrees(parent.value, t, e, cs);
        LastIndexAgrees(t, cs);
      }
    }
  }

  // Removing at "/" takes the first element of an array; the standard knows no such index.
  lemma EmptyTokenRemoves(x: Value)
    ensures Apply(VArray([x]), Op(Pointer([""]), Remove), Code(true)) == Some(VArray([]))
    ensures Apply(VArray([x]), Op(Pointer([""]), Remove), Rfc(true)) == None
  {
    LaxIndexes();
    assert [""][..0] == [];
    assert [x][..0] + [x][1..] == [];
  }

  // Removing and then adding at the same place is replacing.
  lemma RemoveThenAdd(v: Value, ts: seq<Text>, x: Value, rd: Reading)
    requires ts != []
    ensures EditAt(v, ts, Remove, rd).Some? <==> EditAt(v, ts, Replace(x), rd).Some?
    ensures EditAt(v, ts, Remove, rd).Some?
            ==> EditAt(EditAt(v, ts, Remove, rd).value, ts, Add(x), rd) == EditAt(v, ts, Replace(x), rd)
  {
    hide EditChild, ValueAt, ValuePut;
    var above, t := ts[..|ts| - 1], ts[|ts| - 1];
    var parent := ValueAt(v, above, rd);
    if parent.Some? {
      ChildReplaced(parent.value, t, x, rd);
      var removed := EditChild(parent.value, t, Remove, rd);
      if removed.Some? {
        var added := EditChild(removed.value, t, Add(x), rd);
        PutGet(v, above, removed.value, rd);
        PutTwice(v, above, removed.value, added.value, rd);
      }
    }
  }

  lemma ChildReplaced(v: Value, t: Text, x: Value, rd: Reading)
    ensures EditChild(v, t, Remove, rd).Some? <==> EditChild(v, t, Replace(x), rd).Some?
    ensures EditChild(v, t, Remove, rd).Some?
            ==> EditChild(EditChild(v, t, Remove, rd).value, t, Add(x), rd) == EditChild(v, t, Replace(x), rd)
  {
    hide LastIndex, LastKey, LastText;
    NoDash(t, rd);
    if v.VArray? {
      var i := LastIndex(t, rd);
      if i.Some? && i.value < |v.items| {
        var k, items := i.value, v.items;
        var cut := items[..k] + items[k + 1..];
        assert cut[..k] == items[..k] && cut[k..] == items[k + 1..];
        assert items[..k] + [x] + items[k + 1..] == items[k := x];
      }
    } else if v.VObject? && LastKey(t, rd).Some? && LastKey(t, rd).value in v.fields {
      var k := LastKey(t, rd).value;
      assert Without(v.fields, k)[k := x] == v.fields[k := x];
    }
  }

  lemma {:induction false} PutTwice(v: Value, ts: seq<Text>, w: Value, x: Value, rd: Reading)
    requires ValueAt(v, ts, rd).Some? && ValueAt(ValuePut(v, ts, w, rd), ts, rd).Some?
    ensures ValuePut(ValuePut(v, ts, w, rd), ts, x, rd) == ValuePut(v, ts, x, rd)
    decreases ts
  {
    hide Child, SetChild;
    if ts != [] {
      var c := Child(v, ts[0], rd).value;
      ChildSet(v, ts[0], ValuePut(c, ts[1..], w, rd), rd);
      PutGet(c, ts[1..], w, rd);
      PutTwice(c, ts[1..], w, x, rd);
    }
  }

  // ---- Patch objects ----

  function Name(e: Edit): Text {
    match e
    case Add(_) => "add"
    case Remove => "remove"
    case Replace(_) => "replace"
    case Test(_) => "test"
    case Copy(_) => "copy"
    case Move(_) => "move"
  }

  ghost predicate HasText(p: Value, k: Text) {
    p.VObject? && k in p.fields && p.fields[k].VString?
  }

  // The operation a patch object asks for, by the members it needs; there may be more, and
  // they come in any order.
  ghost function Request(p: Value): Option<Op> {
    if !HasText(p, "path") || !HasText(p, "op") then None else
      var f, path, op := p.fields, PathOf(p.fields["path"].s), p.fields["op"].s;
      var value := "value" in f;
      if op == "remove" then Some(Op(path, Remove))
      else if op == "add" && value then Some(Op(path, Add(f["value"])))
      else if op == "replace" && value then Some(Op(path, Replace(f["value"])))
      else if op == "test" && value then Some(Op(path, Test(f["value"])))
      else if op == "copy" && HasText(p, "from") then Some(Op(path, Copy(PathOf(f["from"].s))))
      else if op == "move" && HasText(p, "from") then Some(Op(path, Move(PathOf(f["from"].s))))
      else None
  }

  // A replacement without a value, of which the code does the first half.
  ghost predicate HalfReplaces(p: Value) {
    HasText(p, "path") && HasText(p, "op") && p.fields["op"].s == "replace" && "value" !in p.fields
    && p.fields["path"].s != ""
  }

  // A document without what a path names, where there is such a thing below the root.
  ghost function Deprived(v: Value, path: Path, cs: bool): Value {
    var p := Target(path);
    if p.None? || p.value == [] then v else
      var w := EditAt(v, p.value, Remove, Code(cs));
      if w.Some? then w.value else v
  }

  // What is left of a document by a patch that fails: the code may have taken something
  // out before.
  ghost function Left(v: Value, p: Value, cs: bool): Value {
    if HalfReplaces(p) then Deprived(v, PathOf(p.fields["path"].s), cs)
    else if Request(p).Some? && Request(p).value.edit.Move? then Deprived(v, Request(p).value.edit.from, cs)
    else v
  }

  // ---- Operations in turn ----

  // The patches of an array in turn, none of which may be malformed.
  ghost function RunPatches(v: Value, ps: seq<Value>, rd: Reading): Option<Value>
    decreases ps
  {
    if ps == [] then Some(v)
    else if Request(ps[0]).None? then None else
      var w := Apply(v, Request(ps[0]).value, rd);
      if w.None? then None else RunPatches(w.value, ps[1..], rd)
  }

  // What they leave: at the first that fails, what is left by that one.
  ghost function RunLeaves(v: Value, ps: seq<Value>, cs: bool): Value
    decreases ps
  {
    if ps == [] then v
    else if Request(ps[0]).Some? && Apply(v, Request(ps[0]).value, Code(cs)).Some? then
      RunLeaves(Apply(v, Request(ps[0]).value, Code(cs)).value, ps[1..], cs)
    else Left(v, ps[0], cs)
  }
}
