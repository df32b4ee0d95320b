// What taking a member out of an object and putting one in does to its fields.
module JsonMembers {
  import opened JsonValues

  ghost function Without(f: map<Text, Value>, key: Text): map<Text, Value> {
    f - {key}
  }

  lemma AppendTidy(ms: seq<Member>, m: Member)
    requires TidyMembers(ms) && Tidy(m.value) && m.key !in KeySet(ms)
    ensures TidyMembers(ms + [m])
  {
    hide Tidy;
    assert forall i :: 0 <= i < |ms| ==> ms[i].key in KeySet(ms);
  }

  lemma AppendKey(ms: seq<Member>, m: Member)
    ensures KeySet(ms + [m]) == KeySet(ms) + {m.key}
  {
    var r := ms + [m];
    forall i | 0 <= i < |ms| ensures ms[i].key in KeySet(r) { assert r[i] == ms[i]; }
    assert r[|ms|] == m;
  }

  lemma AppendMember(ms: seq<Member>, m: Member)
    requires TidyMembers(ms) && Tidy(m.value) && m.key !in KeySet(ms)
    ensures TidyMembers(ms + [m]) && Fields(ms + [m]) == Fields(ms)[m.key := Meaning(m.value)]
    ensures KeySet(ms + [m]) == KeySet(ms) + {m.key}
  {
    hide Meaning, Tidy, Fields, KeySet;
    var r := ms + [m];
    AppendTidy(ms, m);
    AppendKey(ms, m);
    FieldsAt(ms);
    FieldsAt(r);
    forall k | k in KeySet(r) ensures Fields(r)[k] == Fields(ms)[m.key := Meaning(m.value)][k] {
      var i := Find(r, k);
      if i < |ms| { assert r[i] == ms[i]; }
    }
    assert Fields(r) == Fields(ms)[m.key := Meaning(m.value)];
  }

  // A list without its last member.
  lemma DropLast(ms: seq<Member>, m: Member)
    requires TidyMembers(ms + [m])
    ensures TidyMembers(ms) && m.key !in KeySet(ms) && Tidy(m.value)
  {
    hide Tidy;
    var r := ms + [m];
    assert r[|ms|] == m;
    assert forall i :: 0 <= i < |ms| ==> r[i] == ms[i];
  }

  lemma MovedLast(ms: seq<Member>, i: nat)
    requires i < |ms|
    ensures multiset(ms[..i] + ms[i + 1..] + [ms[i]]) == multiset(ms)
  {
    assert ms == ms[..i] + [ms[i]] + ms[i + 1..];
  }

  lemma FieldsKeys(ms: seq<Member>)
    ensures Fields(ms).Keys == KeySet(ms)
  {
  }

  lemma RemoveAt(ms: seq<Member>, i: nat)
    requires TidyMembers(ms) && i < |ms|
    ensures TidyMembers(ms[..i] + ms[i + 1..])
    ensures Fields(ms[..i] + ms[i + 1..]) == Without(Fields(ms), ms[i].key)
    ensures KeySet(ms[..i] + ms[i + 1..]) == KeySet(ms) - {ms[i].key}
  {
    hide Meaning, Tidy, KeySet, Fields;
    var r := ms[..i] + ms[i + 1..];
    MovedLast(ms, i);
    Reordered(ms, r + [ms[i]]);
    DropLast(r, ms[i]);
    AppendMember(r, ms[i]);
    FieldsKeys(r);
  }

  lemma ReorderedTidy(a: seq<Member>, b: seq<Member>)
    requires multiset(a) == multiset(b) && |a| == |b| && TidyMembers(a)
    ensures TidyMembers(b) && Fields(a) == Fields(b)
  {
    hide Meaning, Tidy;
    Reordered(a, b);
  }

  lemma PutLast(ms: seq<Member>, i: nat, m: Member)
    requires i < |ms|
    ensures multiset(ms[..i] + ms[i + 1..] + [m]) == multiset(ms[i := m])
  {
    var r := ms[i := m];
    assert r[..i] == ms[..i] && r[i + 1..] == ms[i + 1..];
    MovedLast(r, i);
  }

  lemma ReplaceMember(ms: seq<Member>, i: nat, n: Json)
    requires TidyMembers(ms) && i < |ms| && Tidy(n)
    ensures TidyMembers(ms[i := Member(ms[i].key, n)])
    ensures Fields(ms[i := Member(ms[i].key, n)]) == Fields(ms)[ms[i].key := Meaning(n)]
  {
    hide Meaning, Tidy, KeySet, Fields, TidyMembers;
    var m := Member(ms[i].key, n);
    var rest := ms[..i] + ms[i + 1..];
    RemoveAt(ms, i);
    AppendMember(rest, m);
    PutLast(ms, i, m);
    ReorderedTidy(rest + [m], ms[i := m]);
    assert Without(Fields(ms), m.key)[m.key := Meaning(n)] == Fields(ms)[m.key := Meaning(n)];
  }
}
