// Sorted member lists side by side: where they part, and walks along both.
module JsonCompare {
  import opened JsonValues
  import opened JsonSort

  // Keys compare equal exactly when they count as the same.
  lemma KeyCompare(a: Text, b: Text, cs: bool)
    ensures CompareStrings(a, b, cs) == StrCmp(Fold(a, cs), Fold(b, cs))
    ensures CompareStrings(a, b, cs) == 0 <==> Fold(a, cs) == Fold(b, cs)
  {
    CmpZero(Fold(a, cs), Fold(b, cs));
  }

  // Distinct keys in key order ascend strictly.
  ghost predicate Ascending(ms: seq<Member>) {
    forall i, j :: 0 <= i < j < |ms| ==> StrCmp(ms[i].key, ms[j].key) < 0
  }

  predicate InKeyOrder(ms: seq<Member>) {
    forall i, j :: 0 <= i < j < |ms| ==> StrCmp(ms[i].key, ms[j].key) <= 0
  }

  lemma Ascends(ms: seq<Member>)
    requires InKeyOrder(ms) && DistinctKeys(ms)
    ensures Ascending(ms)
  {
    hide StrCmp;
    forall i, j | 0 <= i < j < |ms| ensures StrCmp(ms[i].key, ms[j].key) < 0 { CmpZero(ms[i].key, ms[j].key); }
  }

  // A key smaller than the one at position k, and not among those before it, is absent.
  lemma Absent(ms: seq<Member>, k: nat, key: Text)
    requires Ascending(ms) && k <= |ms|
    requires k < |ms| ==> StrCmp(key, ms[k].key) < 0
    requires forall i :: 0 <= i < k ==> ms[i].key != key
    ensures key !in KeySet(ms)
  {
    hide StrCmp;
    forall i | 0 <= i < |ms| ensures ms[i].key != key {
      if i >= k {
        CmpZero(key, key);
        if i > k { CmpTrans(key, ms[k].key, ms[i].key); }
      }
    }
  }

  lemma TidyObject(ms: seq<Member>)
    ensures Tidy(Object(ms)) <==> TidyMembers(ms)
  {
  }

  lemma MeaningObject(ms: seq<Member>)
    ensures Meaning(Object(ms)) == VObject(Fields(ms))
  {
  }

  // The first `k` members of two ascending lists agree.
  ghost predicate AgreeTo(a: seq<Member>, b: seq<Member>, k: nat) {
    k <= |a| && k <= |b|
        && forall i :: 0 <= i < k ==> a[i].key == b[i].key && Meaning(a[i].value) == Meaning(b[i].value)
  }

  lemma AgreeAll(a: seq<Member>, b: seq<Member>)
    requires Ascending(a) && Ascending(b) && DistinctKeys(a) && DistinctKeys(b) && |a| == |b| && AgreeTo(a, b, |a|)
    ensures Fields(a) == Fields(b)
  {
    hide StrCmp, Meaning, Ascending;
    assert KeySet(a) == KeySet(b) by {
      forall i | 0 <= i < |a| ensures a[i].key in KeySet(b) && b[i].key in KeySet(a) { assert a[i].key == b[i].key; }
    }
    forall i, j | 0 <= i < |a| && 0 <= j < |b| && a[i].key == b[j].key
      ensures Meaning(a[i].value) == Meaning(b[j].value)
    {
      assert b[i].key == b[j].key;
    }
    SameFields(a, b);
  }

  // The lists part at position k: different keys there, or one of them at its end.
  lemma PartAt(a: seq<Member>, b: seq<Member>, k: nat)
    requires Ascending(a) && Ascending(b) && DistinctKeys(a) && DistinctKeys(b) && AgreeTo(a, b, k)
    requires k < |a| || k < |b|
    requires k < |a| && k < |b| ==> a[k].key != b[k].key
    ensures Fields(a) != Fields(b)
  {
    hide StrCmp, Meaning;
    FieldsAt(a);
    FieldsAt(b);
    if k < |a| && k < |b| { CmpZero(a[k].key, b[k].key); }
    if k == |b| || (k < |a| && StrCmp(a[k].key, b[k].key) < 0) {
      Absent(b, k, a[k].key);
    } else {
      CmpZero(b[k].key, b[k].key);
      if k < |a| { CmpZero(a[k].key, b[k].key); CmpZero(b[k].key, a[k].key); }
      Absent(a, k, b[k].key);
    }
  }

  // One key leads to different values.
  lemma DifferAt(a: seq<Member>, b: seq<Member>, k: nat)
    requires DistinctKeys(a) && DistinctKeys(b) && k < |a| && k < |b|
    requires a[k].key == b[k].key && Meaning(a[k].value) != Meaning(b[k].value)
    ensures Fields(a) != Fields(b)
  {
    FieldsAt(a);
    FieldsAt(b);
  }

  // ---- Walking two sorted member lists side by side ----

  // Everything passed in one list is smaller than everything ahead in the other.
  ghost predicate Aligned(x: seq<Member>, y: seq<Member>, i: nat, j: nat) {
    && i <= |x| && j <= |y|
    && (forall a, b :: 0 <= a < i && j <= b < |y| ==> StrCmp(x[a].key, y[b].key) < 0)
    && (forall a, b :: i <= a < |x| && 0 <= b < j ==> StrCmp(y[b].key, x[a].key) < 0)
  }

  // The keys passed so far.
  ghost function Seen(x: seq<Member>, y: seq<Member>, i: nat, j: nat): set<Text>
    requires i <= |x| && j <= |y|
  {
    KeySet(x[..i]) + KeySet(y[..j])
  }

  // The sign of the next step of the walk: behind in x, behind in y, or the same key.
  function Diff(x: seq<Member>, y: seq<Member>, i: nat, j: nat): int
    requires i <= |x| && j <= |y| && (i < |x| || j < |y|)
  {
    if i == |x| then 1 else if j == |y| then -1 else StrCmp(x[i].key, y[j].key)
  }

  lemma SeenMore(x: seq<Member>, y: seq<Member>, i: nat, j: nat)
    requires i <= |x| && j <= |y|
    ensures i < |x| ==> Seen(x, y, i + 1, j) == Seen(x, y, i, j) + {x[i].key}
    ensures j < |y| ==> Seen(x, y, i, j + 1) == Seen(x, y, i, j) + {y[j].key}
    ensures i < |x| && j < |y| && x[i].key == y[j].key ==> Seen(x, y, i + 1, j + 1) == Seen(x, y, i, j) + {x[i].key}
  {
    KeySetMore(x, i);
    KeySetMore(y, j);
  }

  lemma KeySetMore(x: seq<Member>, i: nat)
    requires i <= |x|
    ensures i < |x| ==> KeySet(x[..i + 1]) == KeySet(x[..i]) + {x[i].key}
  {
    if i < |x| {
      var a, b := x[..i + 1], x[..i];
      forall k | 0 <= k < i ensures b[k].key in KeySet(a) { assert a[k] == b[k]; }
      assert a[i] == x[i];
    }
  }

  // x is behind: its next key is nowhere in y and new.
  lemma StepX(x: seq<Member>, y: seq<Member>, i: nat, j: nat)
    requires Aligned(x, y, i, j) && Ascending(x) && Ascending(y) && (i < |x| || j < |y|) && Diff(x, y, i, j) < 0
    ensures i < |x| && Aligned(x, y, i + 1, j) && x[i].key !in KeySet(y) && x[i].key !in Seen(x, y, i, j)
  {
    hide StrCmp;
    CmpZero(x[i].key, x[i].key);
    forall b | j <= b < |y| ensures StrCmp(x[i].key, y[b].key) < 0 {
      if b > j { CmpTrans(x[i].key, y[j].key, y[b].key); }
    }
  }

  lemma StepY(x: seq<Member>, y: seq<Member>, i: nat, j: nat)
    requires Aligned(x, y, i, j) && Ascending(x) && Ascending(y) && (i < |x| || j < |y|) && Diff(x, y, i, j) > 0
    ensures j < |y| && Aligned(x, y, i, j + 1) && y[j].key !in KeySet(x) && y[j].key !in Seen(x, y, i, j)
  {
    hide StrCmp;
    CmpZero(y[j].key, y[j].key);
    if i < |x| { CmpZero(y[j].key, x[i].key); }
    forall a | i <= a < |x| ensures StrCmp(y[j].key, x[a].key) < 0 {
      if a > i { CmpTrans(y[j].key, x[i].key, x[a].key); }
    }
  }

  lemma StepBoth(x: seq<Member>, y: seq<Member>, i: nat, j: nat)
    requires Aligned(x, y, i, j) && Ascending(x) && Ascending(y) && (i < |x| || j < |y|) && Diff(x, y, i, j) == 0
    ensures i < |x| && j < |y| && x[i].key == y[j].key && Aligned(x, y, i + 1, j + 1) && x[i].key !in Seen(x, y, i, j)
  {
    hide StrCmp;
    CmpZero(x[i].key, y[j].key);
    CmpZero(x[i].key, x[i].key);
  }
}
