// JSON trees (component/cJSON/cJSON_v17.h), an invalid item among them, and what they mean
// once the order of object members is forgotten.
module JsonValues {
  // A byte string without its terminating zero.
  type Text = string

  datatype Json =
    | Null | Bool(b: bool) | Number(n: int) | String(s: Text)
    | Array(items: seq<Json>) | Object(members: seq<Member>) | Invalid

  datatype Member = Member(key: Text, value: Json)

  // A JSON value with objects as maps.
  datatype Value =
    | VNull | VBool(b: bool) | VNumber(n: int) | VString(s: Text)
    | VArray(items: seq<Value>) | VObject(fields: map<Text, Value>) | VInvalid

  ghost function KeySet(ms: seq<Member>): set<Text> {
    set i | 0 <= i < |ms| :: ms[i].key
  }

  ghost function Find(ms: seq<Member>, k: Text): (i: nat)
    requires k in KeySet(ms)
    ensures i < |ms| && ms[i].key == k
  {
    var i :| 0 <= i < |ms| && ms[i].key == k;
    i
  }

  ghost function Meaning(j: Json): Value {
    match j
    case Null => VNull
    case Bool(b) => VBool(b)
    case Number(n) => VNumber(n)
    case String(s) => VString(s)
    case Invalid => VInvalid
    case Array(items) => VArray(seq(|items|, i requires 0 <= i < |items| => Meaning(items[i])))
    case Object(ms) => VObject(map k | k in KeySet(ms) :: Meaning(ms[Find(ms, k)].value))
  }

  ghost predicate DistinctKeys(ms: seq<Member>) {
    forall i, j :: 0 <= i < j < |ms| ==> ms[i].key != ms[j].key
  }

  function LowerChar(c: char): char {
    if 'A' <= c <= 'Z' then c + (32 as char) else c
  }

  function Lower(s: Text): (r: Text)
    ensures |r| == |s|
  {
    seq(|s|, i requires 0 <= i < |s| => LowerChar(s[i]))
  }

  // The letters that count as the same without case: A to Z and a to z in their order.
  ghost predicate Twins(a: char, b: char) {
    exists i: nat :: i < 26 && {a, b} == {"ABCDEFGHIJKLMNOPQRSTUVWXYZ"[i], "abcdefghijklmnopqrstuvwxyz"[i]}
  }

  lemma LettersFold(a: char, b: char)
    ensures LowerChar(a) == LowerChar(b) <==> a == b || Twins(a, b)
  {
    if LowerChar(a) == LowerChar(b) && a != b {
      var i := if a < b then a as int - 'A' as int else b as int - 'A' as int;
      LetterAt(i);
      assert {a, b} == {"ABCDEFGHIJKLMNOPQRSTUVWXYZ"[i], "abcdefghijklmnopqrstuvwxyz"[i]};
    }
    if Twins(a, b) && a != b {
      var i: nat :| i < 26 && {a, b} == {"ABCDEFGHIJKLMNOPQRSTUVWXYZ"[i], "abcdefghijklmnopqrstuvwxyz"[i]};
      LetterAt(i);
      var s := {a, b};
      assert a in s && b in s;
    }
  }

  lemma LetterAt(i: nat)
    requires i < 26
    ensures "ABCDEFGHIJKLMNOPQRSTUVWXYZ"[i] == 'A' + (i as char) && "abcdefghijklmnopqrstuvwxyz"[i] == 'a' + (i as char)
  {
  }

  // Texts are the same without case letter by letter.
  lemma TextsFold(s: Text, t: Text)
    ensures Lower(s) == Lower(t) <==> |s| == |t| && forall i :: 0 <= i < |s| ==> s[i] == t[i] || Twins(s[i], t[i])
  {
    hide Twins;
    if Lower(s) == Lower(t) {
      forall i | 0 <= i < |s| ensures s[i] == t[i] || Twins(s[i], t[i]) {
        assert Lower(s)[i] == Lower(t)[i];
        LettersFold(s[i], t[i]);
      }
    }
    if |s| == |t| && forall i :: 0 <= i < |s| ==> s[i] == t[i] || Twins(s[i], t[i]) {
      forall i | 0 <= i < |s| ensures Lower(s)[i] == Lower(t)[i] { LettersFold(s[i], t[i]); }
    }
  }

  // A key as it counts: as it is, or with case ignored.
  function Fold(k: Text, cs: bool): Text {
    if cs then k else Lower(k)
  }

  // Keys distinct in every object of the tree.
  ghost predicate Tidy(j: Json) {
    match j
    case Array(items) => forall i :: 0 <= i < |items| ==> Tidy(items[i])
    case Object(ms) => DistinctKeys(ms) && forall i :: 0 <= i < |ms| ==> Tidy(ms[i].value)
    case _ => true
  }

  ghost predicate TidyMembers(ms: seq<Member>) {
    DistinctKeys(ms) && forall i :: 0 <= i < |ms| ==> Tidy(ms[i].value)
  }

  // The meaning of a member list.
  ghost function Fields(ms: seq<Member>): map<Text, Value> {
    Meaning(Object(ms)).fields
  }

  lemma FieldsAt(ms: seq<Member>)
    requires DistinctKeys(ms)
    ensures forall k :: k in Fields(ms) <==> k in KeySet(ms)
    ensures forall i :: 0 <= i < |ms| ==> ms[i].key in Fields(ms) && Fields(ms)[ms[i].key] == Meaning(ms[i].value)
  {
    forall i | 0 <= i < |ms| ensures ms[i].key in Fields(ms) && Fields(ms)[ms[i].key] == Meaning(ms[i].value) {
      assert ms[i].key in KeySet(ms);
      assert Find(ms, ms[i].key) == i;
    }
  }

  // Two member lists mean the same exactly when they have the same keys and the same
  // meaning under each.
  lemma SameFields(a: seq<Member>, b: seq<Member>)
    requires DistinctKeys(a) && DistinctKeys(b)
    requires KeySet(a) == KeySet(b)
    requires forall i, j :: 0 <= i < |a| && 0 <= j < |b| && a[i].key == b[j].key
               ==> Meaning(a[i].value) == Meaning(b[j].value)
    ensures Fields(a) == Fields(b)
  {
    FieldsAt(a);
    FieldsAt(b);
    forall k | k in KeySet(a) ensures k in Fields(a) && k in Fields(b) && Fields(a)[k] == Fields(b)[k] {
      var i, j := Find(a, k), Find(b, k);
      assert a[i].key == b[j].key;
    }
  }

  lemma Reordered(a: seq<Member>, b: seq<Member>)
    requires multiset(a) == multiset(b) && |a| == |b| && DistinctKeys(a)
    ensures DistinctKeys(b) && Fields(a) == Fields(b) && KeySet(a) == KeySet(b)
    ensures TidyMembers(a) ==> TidyMembers(b)
    ensures forall i :: 0 <= i < |b| ==> b[i] in a
  {
    hide Meaning, Tidy;
    SameElements(a, b);
    SameElements(b, a);
    forall i, j | 0 <= i < j < |b| ensures b[i].key != b[j].key {
      OnceEach(a, b, i, j);
    }
    assert KeySet(a) == KeySet(b) by {
      forall i | 0 <= i < |a| ensures a[i].key in KeySet(b) { assert a[i] in b; }
      forall i | 0 <= i < |b| ensures b[i].key in KeySet(a) { assert b[i] in a; }
    }
    SameFields(a, b);
  }

  lemma SameElements<T>(a: seq<T>, b: seq<T>)
    requires multiset(a) == multiset(b)
    ensures forall i :: 0 <= i < |b| ==> b[i] in a
  {
    forall i | 0 <= i < |b| ensures b[i] in a {
      assert b[i] in multiset(b);
    }
  }

  lemma OnceEach(a: seq<Member>, b: seq<Member>, i: nat, j: nat)
    requires multiset(a) == multiset(b) && DistinctKeys(a) && i < j < |b|
    ensures b[i].key != b[j].key
  {
    SameElements(a, b);
    if b[i].key == b[j].key {
      assert b[i] in a && b[j] in a;
      assert b[i] == b[j];
      Twice(b, i, j);
      AtMostOnce(a, b[i]);
      assert false;
    }
  }

  lemma Twice<T>(s: seq<T>, i: nat, j: nat)
    requires i < j < |s| && s[i] == s[j]
    ensures multiset(s)[s[i]] >= 2
  {
    assert s == s[..i] + [s[i]] + s[i + 1..j] + [s[j]] + s[j + 1..];
  }

  lemma {:induction false} AtMostOnce<T>(s: seq<T>, x: T)
    requires forall i, j :: 0 <= i < j < |s| ==> s[i] != s[j]
    ensures multiset(s)[x] <= 1
  {
    if s != [] {
      var k := |s| - 1;
      AtMostOnce(s[..k], x);
      assert s == s[..k] + [s[k]];
      if s[k] == x { assert x !in s[..k]; }
    }
  }

  // ---- Decimal numerals ----

  function DigitsValue(t: Text): nat
    requires forall i :: 0 <= i < |t| ==> t[i] >= '0'
  {
    if t == [] then 0 else 10 * DigitsValue(t[..|t| - 1]) + (t[|t| - 1] as nat - '0' as nat)
  }

  function Decimal(n: nat): (t: Text)
    ensures |t| > 0 && forall i :: 0 <= i < |t| ==> '0' <= t[i] <= '9'
  {
    if n < 10 then ['0' + (n as char)] else Decimal(n / 10) + ['0' + ((n % 10) as char)]
  }

  lemma {:induction false} DecimalValue(n: nat)
    ensures DigitsValue(Decimal(n)) == n
    ensures n > 0 ==> Decimal(n)[0] != '0'
  {
    if n >= 10 {
      DecimalValue(n / 10);
      assert Decimal(n)[..|Decimal(n)| - 1] == Decimal(n / 10);
    } else {
      assert Decimal(n)[..0] == [];
    }
  }
}
