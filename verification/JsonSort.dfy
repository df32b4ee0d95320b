// Key order and the merge sort of a doubly linked child list
// (component/cJSON/cJSON_Utils.c, compare_strings and sort_list).
module JsonSort {
  import opened JsonValues

  // ---- Key order ----

  // strcmp: the sign of the first difference, a proper prefix being smaller.
  function StrCmp(a: Text, b: Text): int {
    if a == [] then (if b == [] then 0 else -1)
    else if b == [] then 1
    else if a[0] == b[0] then StrCmp(a[1..], b[1..])
    else if a[0] < b[0] then -1 else 1
  }

  function CompareStrings(a: Text, b: Text, caseSensitive: bool): int {
    StrCmp(Fold(a, caseSensitive), Fold(b, caseSensitive))
  }

  lemma {:induction false} CmpZero(a: Text, b: Text)
    ensures StrCmp(a, b) == 0 <==> a == b
    ensures StrCmp(a, b) < 0 <==> StrCmp(b, a) > 0
  {
    if a != [] && b != [] && a[0] == b[0] {
      CmpZero(a[1..], b[1..]);
      assert a == [a[0]] + a[1..] && b == [b[0]] + b[1..];
    }
  }

  lemma {:induction false} CmpTrans(a: Text, b: Text, c: Text)
    requires StrCmp(a, b) <= 0 && StrCmp(b, c) <= 0
    ensures StrCmp(a, c) <= 0 && (StrCmp(a, b) < 0 || StrCmp(b, c) < 0 ==> StrCmp(a, c) < 0)
  {
    if a != [] && b != [] && c != [] && a[0] == b[0] && b[0] == c[0] {
      CmpTrans(a[1..], b[1..], c[1..]);
    }
  }

  // One text before another in the order of a dictionary, by the numbers of its characters.
  ghost predicate Earlier(a: Text, b: Text) {
    a < b || exists n: nat :: FirstDifference(a, b, n) && a[n] < b[n]
  }

  ghost predicate FirstDifference(a: Text, b: Text, n: nat) {
    n < |a| && n < |b| && a[..n] == b[..n] && a[n] != b[n]
  }

  lemma {:induction false} CmpEarlier(a: Text, b: Text)
    ensures StrCmp(a, b) < 0 <==> Earlier(a, b)
    decreases a
  {
    if a != [] && b != [] {
      if a[0] == b[0] {
        CmpEarlier(a[1..], b[1..]);
        EarlierOn(a, b);
      } else {
        assert FirstDifference(a, b, 0);
        forall n: nat | FirstDifference(a, b, n) ensures n == 0 { NoneBefore(a, b, n); }
      }
    }
  }

  lemma NoneBefore(a: Text, b: Text, n: nat)
    requires FirstDifference(a, b, n)
    ensures n > 0 ==> a[0] == b[0]
  {
    if n > 0 { assert a[..n][0] == b[..n][0]; }
  }

  lemma EarlierOn(a: Text, b: Text)
    requires a != [] && b != [] && a[0] == b[0]
    ensures Earlier(a, b) <==> Earlier(a[1..], b[1..])
  {
    var x, y := a[1..], b[1..];
    assert a == [a[0]] + x && b == [a[0]] + y;
    assert a < b <==> x < y;
    forall n: nat | FirstDifference(x, y, n) ensures FirstDifference(a, b, n + 1) {
      assert a[..n + 1] == [a[0]] + x[..n] && b[..n + 1] == [a[0]] + y[..n];
    }
    forall n: nat | FirstDifference(a, b, n) ensures n > 0 && FirstDifference(x, y, n - 1) {
      assert a[..n][1..] == x[..n - 1] && b[..n][1..] == y[..n - 1];
    }
    if Earlier(a, b) && !(a < b) {
      var n: nat :| FirstDifference(a, b, n) && a[n] < b[n];
      assert FirstDifference(x, y, n - 1) && x[n - 1] < y[n - 1];
    }
    if Earlier(x, y) && !(x < y) {
      var n: nat :| FirstDifference(x, y, n) && x[n] < y[n];
      assert FirstDifference(a, b, n + 1) && a[n + 1] < b[n + 1];
    }
  }

  // In order, pair by pair of neighbours and hence throughout.
  predicate Ordered(ks: seq<Text>, cs: bool) {
    forall i, j :: 0 <= i < j < |ks| ==> CompareStrings(ks[i], ks[j], cs) <= 0
  }

  // ---- The list ----

  // A node: the links, the key under which it is a member, and its type and scalar value;
  // of an array or object the elements are on the child list.
  class Item {
    const key: Text
    const value: Json
    var next: Item?
    var prev: Item?
    var child: Item?

    constructor (key: Text, value: Json)
      ensures this.key == key && this.value == value && next == null && prev == null && child == null
    {
      this.key, this.value := key, value;
      next, prev, child := null, null, null;
    }
  }

  ghost function Keys(s: seq<Item>): seq<Text> {
    seq(|s|, i requires 0 <= i < |s| => s[i].key)
  }

  ghost predicate Distinct(s: seq<Item>) {
    forall i, j :: 0 <= i < j < |s| ==> s[i] != s[j]
  }

  ghost predicate Apart(s: seq<Item>, t: seq<Item>) {
    forall i, j :: 0 <= i < |s| && 0 <= j < |t| ==> s[i] != t[j]
  }

  function Head(s: seq<Item>): Item? {
    if s == [] then null else s[0]
  }

  // Neighbours point at each other.
  ghost predicate Links(s: seq<Item>)
    reads s`next, s`prev
  {
    forall i :: 0 <= i < |s| - 1 ==> s[i].next == s[i + 1] && s[i + 1].prev == s[i]
  }

  // The chain from the first node ends after the last.
  ghost predicate Ends(s: seq<Item>)
    reads s`next
  {
    s != [] ==> s[|s| - 1].next == null
  }

  // A whole list: doubly linked, with null at both ends.
  ghost predicate DoublyLinked(s: seq<Item>, head: Item?)
    reads s`next, s`prev
  {
    && Distinct(s) && Links(s) && Ends(s) && head == Head(s)
    && (s != [] ==> s[0].prev == null)
  }

  lemma Adjacent(s: seq<Item>, cs: bool)
    requires forall i {:trigger s[i]} :: 0 <= i < |s| - 1 ==> CompareStrings(s[i].key, s[i + 1].key, cs) <= 0
    ensures Ordered(Keys(s), cs)
  {
    hide CompareStrings;
    forall i, j | 0 <= i < j < |s| ensures CompareStrings(s[i].key, s[j].key, cs) <= 0 {
      Chained(s, cs, i, j);
    }
  }

  lemma {:induction false} Chained(s: seq<Item>, cs: bool, i: nat, j: nat)
    requires forall i {:trigger s[i]} :: 0 <= i < |s| - 1 ==> CompareStrings(s[i].key, s[i + 1].key, cs) <= 0
    requires i < j < |s|
    ensures CompareStrings(s[i].key, s[j].key, cs) <= 0
    decreases j - i
  {
    if i + 1 < j {
      Chained(s, cs, i + 1, j);
      StepOver(s[i].key, s[i + 1].key, s[j].key, cs);
    }
  }

  lemma StepOver(a: Text, b: Text, c: Text, cs: bool)
    requires CompareStrings(a, b, cs) <= 0 && CompareStrings(b, c, cs) <= 0
    ensures CompareStrings(a, c, cs) <= 0
    ensures CompareStrings(a, b, cs) < 0 || CompareStrings(b, c, cs) < 0 ==> CompareStrings(a, c, cs) < 0
  {
    if cs { CmpTrans(a, b, c); } else { CmpTrans(Lower(a), Lower(b), Lower(c)); }
  }

  // ---- sort_list ----

  // Each key comes before the next one.
  ghost predicate Strict(l: seq<Item>, cs: bool) {
    forall i {:trigger l[i]} :: 0 <= i < |l| - 1 ==> CompareStrings(l[i].key, l[i + 1].key, cs) < 0
  }

  // The test for a list that is in strictly ascending order already.
  method StrictlySorted(list: Item?, cs: bool, ghost l: seq<Item>) returns (sorted: bool)
    requires DoublyLinked(l, list)
    ensures sorted <==> Strict(l, cs)
    ensures sorted ==> Ordered(Keys(l), cs)
  {
    hide CompareStrings, Ordered;
    var current := list;
    ghost var k := 0;
    while current != null && current.next != null && CompareStrings(current.key, current.next.key, cs) < 0
      invariant k <= |l| && current == (if k < |l| then l[k] else null)
      invariant forall i {:trigger l[i]} :: 0 <= i < k && i < |l| - 1
                  ==> CompareStrings(l[i].key, l[i + 1].key, cs) < 0
      decreases |l| - k
    {
      NextOf(l, k);
      current := current.next;
      k := k + 1;
    }
    sorted := current == null || current.next == null;
    if k < |l| { NextOf(l, k); }
    if sorted {
      Adjacent(l, cs);
    }
  }

  lemma NextOf(l: seq<Item>, k: nat)
    requires Links(l) && Ends(l) && k < |l|
    ensures l[k].next == (if k + 1 < |l| then l[k + 1] else null)
  {
  }

  // Half the length, rounded up.
  function Half(n: nat): (mid: nat)
    ensures n > 1 ==> 0 < mid < n
  {
    (n + 1) / 2
  }

  // Two pointers, one at twice the pace of the other, find the middle.
  method Middle(list: Item, ghost l: seq<Item>) returns (second: Item?)
    requires DoublyLinked(l, list) && |l| > 1
    ensures second == l[Half(|l|)]
  {
    var current: Item? := list;
    second := list;
    ghost var mid, k := 0, 0;
    while current != null
      invariant mid <= |l| && k <= |l| && second == (if mid < |l| then l[mid] else null)
      invariant current == (if k < |l| then l[k] else null)
      invariant k == 2 * mid || (k == |l| && k == 2 * mid - 1)
      decreases |l| - k
    {
      NextOf(l, mid);
      NextOf(l, k);
      second := second.next;
      current := current.next;
      mid, k := mid + 1, k + 1;
      if current != null {
        NextOf(l, k);
        current := current.next;
        k := k + 1;
      }
    }
  }

  // Cuts the list before its middle node.
  method Cut(second: Item, ghost l: seq<Item>, ghost mid: nat)
    requires Distinct(l) && Links(l) && Ends(l) && 0 < mid < |l| && l[0].prev == null && second == l[mid]
    modifies l`next, l`prev
    ensures DoublyLinked(l[..mid], l[0]) && DoublyLinked(l[mid..], second)
  {
    assert second.prev == l[mid - 1];
    if second.prev != null {
      second.prev.next := null;
      second.prev := null;
    }
    assert forall i :: 0 <= i < mid - 1 ==> l[i].next == l[i + 1] && l[i + 1].prev == l[i];
    assert forall i :: mid <= i < |l| - 1 ==> l[i].next == l[i + 1] && l[i + 1].prev == l[i];
  }

  // The next node to take keeps both ways of continuing in order.
  lemma TakeOrdered(out: seq<Item>, fs: seq<Item>, gs: seq<Item>, cs: bool)
    requires fs != [] && gs != [] && CompareStrings(fs[0].key, gs[0].key, cs) <= 0
    requires Ordered(Keys(out + fs), cs) && Ordered(Keys(out + gs), cs)
    ensures Ordered(Keys(out + [fs[0]] + fs[1..]), cs) && Ordered(Keys(out + [fs[0]] + gs), cs)
  {
    hide CompareStrings;
    assert out + [fs[0]] + fs[1..] == out + fs;
    var n, x, y := |out|, out + fs, out + gs;
    var z := out + [fs[0]] + gs;
    forall i, j | 0 <= i < j < |z| ensures CompareStrings(z[i].key, z[j].key, cs) <= 0 {
      if j < n {
        assert Keys(x)[i] == z[i].key && Keys(x)[j] == z[j].key;
      } else if j == n {
        assert Keys(x)[i] == z[i].key && Keys(x)[n] == z[n].key;
      } else if i == n {
        if j > n + 1 {
          assert Keys(y)[n] == gs[0].key && Keys(y)[j - 1] == z[j].key;
          StepOver(fs[0].key, gs[0].key, z[j].key, cs);
        }
      } else {
        var i' := if i < n then i else i - 1;
        assert Keys(y)[i'] == z[i].key && Keys(y)[j - 1] == z[j].key;
      }
    }
  }

  lemma TakeShuffle(out: seq<Item>, fs: seq<Item>, gs: seq<Item>)
    requires fs != []
    ensures multiset(out + [fs[0]] + fs[1..] + gs) == multiset(out + fs + gs)
    ensures out + [fs[0]] + fs[1..] + gs == out + fs + gs
  {
    assert out + [fs[0]] + fs[1..] + gs == out + fs + gs;
  }

  lemma SwapShuffle(out: seq<Item>, fs: seq<Item>, gs: seq<Item>)
    ensures multiset(out + gs + fs) == multiset(out + fs + gs)
    ensures Distinct(out + fs + gs) ==> Distinct(out + gs + fs)
  {
    assert multiset(out + gs + fs) == multiset(out) + multiset(gs) + multiset(fs);
    assert multiset(out + fs + gs) == multiset(out) + multiset(fs) + multiset(gs);
    if Distinct(out + fs + gs) {
      var z, w, n := out + gs + fs, out + fs + gs, |out|;
      forall i, j | 0 <= i < j < |z| ensures z[i] != z[j] {
        assert z[i] == w[Crossed(n, |gs|, |fs|, i)] && z[j] == w[Crossed(n, |gs|, |fs|, j)];
      }
    }
  }

  // Where position i goes when two blocks after the first n swap.
  function Crossed(n: nat, g: nat, f: nat, i: nat): nat {
    if i < n || i >= n + g + f then i else if i < n + g then i + f else i - g
  }

  // The merge under way: `out` is linked up to its last node, which `tail` is, and the
  // two remaining lists are intact but for the back pointers of their first nodes.
  ghost predicate Merging(out: seq<Item>, fs: seq<Item>, gs: seq<Item>, result: Item?, tail: Item?)
    reads out`next, out`prev, fs`next, fs`prev, gs`next, gs`prev
  {
    && Distinct(out + fs + gs)
    && Links(out) && Links(fs) && Ends(fs) && Links(gs) && Ends(gs)
    && result == Head(out) && tail == (if out == [] then null else out[|out| - 1])
    && (out != [] ==> out[0].prev == null)
    && (out == [] && fs != [] ==> fs[0].prev == null) && (out == [] && gs != [] ==> gs[0].prev == null)
  }

  lemma MergingSwap(out: seq<Item>, fs: seq<Item>, gs: seq<Item>, result: Item?, tail: Item?)
    requires Merging(out, fs, gs, result, tail)
    ensures Merging(out, gs, fs, result, tail)
  {
    hide Links, Ends, Distinct;
    SwapShuffle(out, fs, gs);
  }

  lemma Parts(out: seq<Item>, fs: seq<Item>, gs: seq<Item>)
    requires Distinct(out + fs + gs)
    ensures Distinct(out) && Distinct(fs) && Distinct(gs) && Apart(out, fs) && Apart(out, gs) && Apart(fs, gs)
  {
    var w, n, m := out + fs + gs, |out|, |fs|;
    assert forall i :: 0 <= i < n ==> w[i] == out[i];
    assert forall i :: 0 <= i < m ==> w[n + i] == fs[i];
    assert forall i :: 0 <= i < |gs| ==> w[n + m + i] == gs[i];
  }

  lemma LinksTail(fs: seq<Item>)
    requires Links(fs) && Ends(fs) && fs != []
    ensures Links(fs[1..]) && Ends(fs[1..])
    ensures |fs| > 1 ==> fs[1..] != [] && fs[0].next == fs[1]
    ensures |fs| == 1 ==> fs[0].next == null
  {
  }

  lemma LinksJoin(a: seq<Item>, b: seq<Item>)
    requires Links(a) && Links(b)
    requires a != [] && b != [] ==> a[|a| - 1].next == b[0] && b[0].prev == a[|a| - 1]
    ensures Links(a + b)
    ensures b != [] && Ends(b) ==> Ends(a + b)
  {
    var s := a + b;
    forall i | 0 <= i < |s| - 1 ensures s[i].next == s[i + 1] && s[i + 1].prev == s[i] {
      if i < |a| - 1 {
        assert s[i] == a[i] && s[i + 1] == a[i + 1];
      } else if i >= |a| {
        assert s[i] == b[i - |a|] && s[i + 1] == b[i - |a| + 1];
      }
    }
  }

  // Hooks a list behind the merged part.
  method Hook(tail: Item, smaller: Item, ghost out: seq<Item>, ghost fs: seq<Item>, ghost gs: seq<Item>)
    requires Distinct(out) && Distinct(fs) && Apart(out, fs) && Apart(out, gs) && Apart(fs, gs)
    requires Links(out) && Links(fs) && Ends(fs) && Links(gs) && Ends(gs)
    requires out != [] && tail == out[|out| - 1] && fs != [] && smaller == fs[0]
    modifies out`next, fs`prev
    ensures tail.next == smaller && smaller.prev == tail
    ensures Links(out) && Links(fs) && Ends(fs) && Links(gs) && Ends(gs) && out[0].prev == old(out[0].prev)
  {
    tail.next := smaller;
    smaller.prev := tail;
  }

  // Links the first node of `fs` behind the merged part.
  method Take(result0: Item?, tail0: Item?, smaller: Item, ghost out: seq<Item>, ghost fs: seq<Item>,
              ghost gs: seq<Item>)
    returns (result: Item?, tail: Item)
    requires Merging(out, fs, gs, result0, tail0) && fs != [] && smaller == fs[0]
    modifies out`next, fs`prev
    ensures Merging(out + [smaller], fs[1..], gs, result, tail)
    ensures smaller.next == Head(fs[1..])
  {
    hide Links, Ends, Distinct, Apart;
    result, tail := result0, smaller;
    TakeShuffle(out, fs, gs);
    Parts(out, fs, gs);
    if result0 == null {
      result := smaller;
    } else {
      Hook(tail0, smaller, out, fs, gs);
    }
    SingleLinks(smaller);
    LinksJoin(out, [smaller]);
    LinksTail(fs);
  }

  lemma SingleLinks(x: Item)
    ensures Links([x])
  {
  }

  // Appends what is left of one list.
  method AppendRest(result: Item, tail: Item, rest: Item, ghost out: seq<Item>, ghost fs: seq<Item>)
    requires Merging(out, fs, [], result, tail) && out != [] && fs != [] && rest == fs[0]
    modifies out`next, fs`prev
    ensures DoublyLinked(out + fs, result)
  {
    hide Links, Ends, Distinct, Apart;
    Parts(out, fs, []);
    assert out + fs + [] == out + fs;
    NoLinks();
    Hook(tail, rest, out, fs, []);
    LinksJoin(out, fs);
  }

  lemma NoLinks()
    ensures Links([]) && Ends([])
  {
  }

  // What follows the merge loop: one of the two lists is left over.
  method Finish(result0: Item?, tail: Item?, first: Item?, second: Item?, ghost out: seq<Item>, ghost fs: seq<Item>,
                ghost gs: seq<Item>)
    returns (result: Item?, ghost r: seq<Item>)
    requires Merging(out, fs, gs, result0, tail) && out != []
    requires first == Head(fs) && second == Head(gs) && (fs == [] <==> gs != [])
    modifies out`next, fs`prev, gs`prev
    ensures r == out + fs + gs && DoublyLinked(r, result)
  {
    hide Links, Ends, Distinct, Apart;
    result, r := result0, out + fs + gs;
    assert out + fs + [] == out + fs && out + [] + gs == out + gs;
    MergingSwap(out, fs, gs, result0, tail);
    if first != null {
      if result == null {
        return first, fs;
      }
      AppendRest(result, tail, first, out, fs);
    }
    if second != null {
      if result == null {
        return second, gs;
      }
      AppendRest(result, tail, second, out, gs);
    }
  }

  // What the merge keeps: both ways of going on are in order, and no node is lost.
  ghost predicate Progress(out: seq<Item>, fs: seq<Item>, gs: seq<Item>, f: seq<Item>, g: seq<Item>, cs: bool) {
    && Ordered(Keys(out + fs), cs) && Ordered(Keys(out + gs), cs)
    && multiset(out + fs + gs) == multiset(f + g)
    && (fs != [] || gs != []) && (out == [] ==> fs != [] && gs != [])
  }

  lemma ProgressTake(out: seq<Item>, fs: seq<Item>, gs: seq<Item>, f: seq<Item>, g: seq<Item>, cs: bool)
    requires Progress(out, fs, gs, f, g, cs) && fs != [] && gs != [] && CompareStrings(fs[0].key, gs[0].key, cs) <= 0
    ensures Progress(out + [fs[0]], fs[1..], gs, f, g, cs)
  {
    hide CompareStrings, Ordered;
    TakeOrdered(out, fs, gs, cs);
    TakeShuffle(out, fs, gs);
  }

  lemma ProgressSwap(out: seq<Item>, fs: seq<Item>, gs: seq<Item>, f: seq<Item>, g: seq<Item>, cs: bool)
    requires Progress(out, fs, gs, f, g, cs)
    ensures Progress(out, gs, fs, f, g, cs)
  {
    SwapShuffle(out, fs, gs);
  }

  // Every node at hand is a node of the two lists.
  lemma ProgressNodes(out: seq<Item>, fs: seq<Item>, gs: seq<Item>, f: seq<Item>, g: seq<Item>, cs: bool)
    requires Progress(out, fs, gs, f, g, cs)
    ensures Within(out, f, g) && Within(fs, f, g) && Within(gs, f, g)
  {
    SameElements(f + g, out + fs + gs);
    forall x | x in out || x in fs || x in gs ensures x in f || x in g {
      assert x in out + fs + gs;
      assert x in f + g;
    }
  }

  ghost predicate Within(s: seq<Item>, f: seq<Item>, g: seq<Item>) {
    forall i :: 0 <= i < |s| ==> s[i] in f || s[i] in g
  }

  lemma ProgressEnd(out: seq<Item>, fs: seq<Item>, gs: seq<Item>, f: seq<Item>, g: seq<Item>, cs: bool)
    requires Progress(out, fs, gs, f, g, cs) && (fs == [] || gs == [])
    ensures out != [] && (fs == [] <==> gs != [])
    ensures Ordered(Keys(out + fs + gs), cs) && multiset(out + fs + gs) == multiset(f + g)
  {
    assert out + fs + gs == if gs == [] then out + fs else out + gs;
  }

  // Two lists merged: of two heads the smaller goes first, of equal ones that of the second.
  ghost function Merged(f: seq<Item>, g: seq<Item>, cs: bool): (r: seq<Item>)
    ensures |r| == |f| + |g|
    decreases |f| + |g|
  {
    if f == [] then g else if g == [] then f
    else if CompareStrings(f[0].key, g[0].key, cs) < 0 then [f[0]] + Merged(f[1..], g, cs)
    else [g[0]] + Merged(f, g[1..], cs)
  }

  lemma MergedStep(r: seq<Item>, f: seq<Item>, g: seq<Item>, cs: bool)
    requires f != [] && g != []
    ensures r + Merged(f, g, cs)
            == if CompareStrings(f[0].key, g[0].key, cs) < 0 then r + [f[0]] + Merged(f[1..], g, cs)
               else r + [g[0]] + Merged(f, g[1..], cs)
  {
    hide CompareStrings;
  }

  lemma MergedRest(r: seq<Item>, f: seq<Item>, g: seq<Item>, cs: bool)
    requires f == [] || g == []
    ensures r + Merged(f, g, cs) == r + f + g
  {
    hide CompareStrings;
    assert r + f + g == if f == [] then r + g else r + f;
  }

  // The merge loop and the appending of the rest.
  method Merge(first0: Item, second0: Item, cs: bool, ghost f: seq<Item>, ghost g: seq<Item>)
    returns (result: Item?, ghost r: seq<Item>)
    requires f != [] && g != [] && DoublyLinked(f, first0) && DoublyLinked(g, second0) && Apart(f, g)
    requires Ordered(Keys(f), cs) && Ordered(Keys(g), cs)
    modifies f`next, f`prev, g`next, g`prev
    ensures DoublyLinked(r, result) && Ordered(Keys(r), cs) && multiset(r) == multiset(f + g)
    ensures r == Merged(f, g, cs)
  {
    hide Links, Ends, Distinct, Apart, CompareStrings, Ordered, Keys, Merging, Progress, DoublyLinked, Merged;
    var first: Item?, second: Item?, tail: Item? := first0, second0, null;
    ghost var fs, gs := f, g;
    result, r := null, [];
    MergeStart(f, g, first0, second0, cs);
    while first != null && second != null
      invariant Merging(r, fs, gs, result, tail) && Progress(r, fs, gs, f, g, cs)
      invariant first == Head(fs) && second == Head(gs) && r + Merged(fs, gs, cs) == Merged(f, g, cs)
      decreases |fs| + |gs|
    {
      MergedStep(r, fs, gs, cs);
      HeadsDiffer(r, fs, gs, result, tail);
      ProgressNodes(r, fs, gs, f, g, cs);
      Reverse(first.key, second.key, cs);
      var smaller;
      if CompareStrings(first.key, second.key, cs) < 0 {
        smaller := first;
      } else {
        smaller := second;
      }
      if first == smaller {
        ProgressTake(r, fs, gs, f, g, cs);
        result, tail := Take(result, tail, smaller, r, fs, gs);
        r, fs := r + [fs[0]], fs[1..];
        first := first.next;
      } else {
        ProgressSwap(r, fs, gs, f, g, cs);
        ProgressTake(r, gs, fs, f, g, cs);
        MergingSwap(r, fs, gs, result, tail);
        result, tail := Take(result, tail, smaller, r, gs, fs);
        r, gs := r + [gs[0]], gs[1..];
        MergingSwap(r, gs, fs, result, tail);
        ProgressSwap(r, gs, fs, f, g, cs);
        second := second.next;
      }
    }
    ProgressNodes(r, fs, gs, f, g, cs);
    ProgressEnd(r, fs, gs, f, g, cs);
    MergedRest(r, fs, gs, cs);
    result, r := Finish(result, tail, first, second, r, fs, gs);
  }

  lemma HeadsDiffer(out: seq<Item>, fs: seq<Item>, gs: seq<Item>, result: Item?, tail: Item?)
    requires Merging(out, fs, gs, result, tail) && fs != [] && gs != []
    ensures fs[0] != gs[0]
  {
    Parts(out, fs, gs);
  }

  lemma MergeStart(f: seq<Item>, g: seq<Item>, first: Item, second: Item, cs: bool)
    requires f != [] && g != [] && DoublyLinked(f, first) && DoublyLinked(g, second) && Apart(f, g)
    requires Ordered(Keys(f), cs) && Ordered(Keys(g), cs)
    ensures Merging([], f, g, null, null) && Progress([], f, g, f, g, cs) && first == Head(f) && second == Head(g)
  {
    hide CompareStrings, Ordered, Distinct, Apart, Ends;
    assert [] + f == f && [] + g == g && [] + f + g == f + g;
    DistinctJoin(f, g);
  }

  lemma DistinctJoin(f: seq<Item>, g: seq<Item>)
    requires Distinct(f) && Distinct(g) && Apart(f, g)
    ensures Distinct(f + g)
  {
  }

  lemma Reverse(a: Text, b: Text, cs: bool)
    ensures CompareStrings(a, b, cs) < 0 <==> CompareStrings(b, a, cs) > 0
    ensures CompareStrings(a, b, cs) == 0 ==> CompareStrings(b, a, cs) == 0
  {
    if cs { CmpZero(a, b); CmpZero(b, a); } else { CmpZero(Lower(a), Lower(b)); CmpZero(Lower(b), Lower(a)); }
  }

  lemma Single(l: seq<Item>, list: Item?, cs: bool)
    requires DoublyLinked(l, list) && (list == null || list.next == null)
    ensures Ordered(Keys(l), cs)
  {
    if l != [] { NextOf(l, 0); }
  }

  lemma AtLeastTwo(l: seq<Item>, list: Item)
    requires DoublyLinked(l, list) && list.next != null
    ensures |l| > 1 && l[0].prev == null
  {
    NextOf(l, 0);
  }

  // The two halves of a list share no node.
  lemma Halves(l: seq<Item>, mid: nat)
    requires Distinct(l) && 0 < mid < |l|
    ensures l == l[..mid] + l[mid..] && Apart(l[..mid], l[mid..])
    ensures forall i, j :: 0 <= i < mid && mid <= j < |l| ==> l[i] != l[j]
  {
  }

  // A shuffle of a part of a list stays inside that part.
  lemma Shuffled(f: seq<Item>, a: seq<Item>, l: seq<Item>)
    requires multiset(f) == multiset(a) && forall i :: 0 <= i < |a| ==> a[i] in l
    ensures forall i :: 0 <= i < |f| ==> f[i] in a && f[i] in l
    ensures f == [] <==> a == []
  {
    SameElements(a, f);
    assert |multiset(f)| == |f| && |multiset(a)| == |a|;
  }

  lemma ApartAgain(f: seq<Item>, g: seq<Item>, a: seq<Item>, b: seq<Item>)
    requires Apart(a, b) && (forall i :: 0 <= i < |f| ==> f[i] in a) && (forall i :: 0 <= i < |g| ==> g[i] in b)
    ensures Apart(f, g)
  {
  }

  lemma ListParts(l: seq<Item>, head: Item?)
    ensures DoublyLinked(l, head)
            <==> Distinct(l) && Links(l) && Ends(l) && head == Head(l) && (l != [] ==> l[0].prev == null)
  {
  }

  // The list in key order: a list that is in strict order as it is, any other by halves.
  ghost function SortedList(l: seq<Item>, cs: bool): (r: seq<Item>)
    decreases |l|
  {
    if |l| <= 1 || Strict(l, cs) then l
    else Merged(SortedList(l[..Half(|l|)], cs), SortedList(l[Half(|l|)..], cs), cs)
  }

  lemma SortedParts(l: seq<Item>, cs: bool)
    ensures |l| <= 1 || Strict(l, cs) ==> SortedList(l, cs) == l
    ensures |l| > 1 && !Strict(l, cs)
            ==> SortedList(l, cs)
                == Merged(SortedList(l[..Half(|l|)], cs), SortedList(l[Half(|l|)..], cs), cs)
  {
  }

  lemma SingleLength(l: seq<Item>, list: Item?)
    requires DoublyLinked(l, list) && (list == null || list.next == null)
    ensures |l| <= 1
  {
    if l != [] { NextOf(l, 0); }
  }

  // sort_list: the same nodes, doubly linked and in key order.
  method SortList(list: Item?, cs: bool, ghost l: seq<Item>) returns (result: Item?, ghost r: seq<Item>)
    requires DoublyLinked(l, list)
    modifies l`next, l`prev
    ensures DoublyLinked(r, result) && Ordered(Keys(r), cs) && multiset(r) == multiset(l) && r == SortedList(l, cs)
    decreases |l|, 1
  {
    hide DoublyLinked, Links, Ends, Apart, CompareStrings, Ordered, Keys, Distinct, Half, Strict, Merged,
         SortedList;
    SortedParts(l, cs);
    if list == null || list.next == null {
      Single(l, list, cs);
      SingleLength(l, list);
      return list, l;
    }
    AtLeastTwo(l, list);
    var sorted := StrictlySorted(list, cs, l);
    if sorted {
      return list, l;
    }
    result, r := SortHalves(list, cs, l);
  }

  // The list cut in the middle, both halves sorted, and merged.
  method SortHalves(list: Item, cs: bool, ghost l: seq<Item>) returns (result: Item?, ghost r: seq<Item>)
    requires DoublyLinked(l, list) && |l| > 1 && l[0].prev == null
    modifies l`next, l`prev
    ensures DoublyLinked(r, result) && Ordered(Keys(r), cs) && multiset(r) == multiset(l)
    ensures r == Merged(SortedList(l[..Half(|l|)], cs), SortedList(l[Half(|l|)..], cs), cs)
    decreases |l|, 0
  {
    hide DoublyLinked, Links, Ends, Apart, CompareStrings, Ordered, Keys, Distinct, Half, Strict, Merged, SortedList;
    HalfInside(|l|);
    var second := Middle(list, l);
    ghost var mid := Half(|l|);
    ghost var a, b := l[..mid], l[mid..];
    ListParts(l, list);
    Halves(l, mid);
    Cut(second, l, mid);
    NoneShared(a, b);
    var first, f := SortList(list, cs, a);
    Shuffled(f, a, l);
    var second', g := SortList(second, cs, b);
    Shuffled(g, b, l);
    ApartAgain(f, g, a, b);
    ListParts(f, first);
    ListParts(g, second');
    assert first != null && second' != null;
    result, r := Merge(first, second', cs, f, g);
    JoinShuffled(f, g, a, b);
  }

  lemma NoneShared(a: seq<Item>, b: seq<Item>)
    requires Apart(a, b)
    ensures forall x :: x in a ==> x !in b
  {
  }

  lemma JoinShuffled(f: seq<Item>, g: seq<Item>, a: seq<Item>, b: seq<Item>)
    requires multiset(f) == multiset(a) && multiset(g) == multiset(b)
    ensures multiset(f + g) == multiset(a + b)
  {
    assert multiset(f + g) == multiset(f) + multiset(g) && multiset(a + b) == multiset(a) + multiset(b);
  }

  // ---- Equal keys ----

  ghost predicate Before(s: seq<Item>, x: Item, y: Item) {
    exists i, j :: 0 <= i < j < |s| && s[i] == x && s[j] == y
  }

  lemma BeforeBehind(h: Item, s: seq<Item>, x: Item, y: Item)
    ensures Before(s, x, y) ==> Before([h] + s, x, y)
    ensures y in s ==> Before([h] + s, h, y)
    ensures Before([h] + s, x, y) ==> Before(s, x, y) || (x == h && y in s)
  {
    var t := [h] + s;
    if Before(s, x, y) {
      var i, j :| 0 <= i < j < |s| && s[i] == x && s[j] == y;
      assert t[i + 1] == x && t[j + 1] == y;
    }
    if y in s {
      var j :| 0 <= j < |s| && s[j] == y;
      assert t[0] == h && t[j + 1] == y;
    }
    if Before(t, x, y) {
      var i, j :| 0 <= i < j < |t| && t[i] == x && t[j] == y;
      assert s[j - 1] == y;
      if i > 0 { assert s[i - 1] == x; }
    }
  }

  lemma {:induction false} MergedMembers(f: seq<Item>, g: seq<Item>, x: Item, cs: bool)
    ensures x in Merged(f, g, cs) <==> x in f || x in g
    decreases |f| + |g|
  {
    hide CompareStrings;
    if f != [] && g != [] {
      MergedMembers(f[1..], g, x, cs);
      MergedMembers(f, g[1..], x, cs);
      assert f == [f[0]] + f[1..] && g == [g[0]] + g[1..];
    }
  }

  lemma HeadFirst(s: seq<Item>, y: Item, cs: bool)
    requires s != [] && Ordered(Keys(s), cs) && y in s
    ensures y == s[0] || CompareStrings(s[0].key, y.key, cs) <= 0
    ensures s == [s[0]] + s[1..] && Ordered(Keys(s[1..]), cs)
  {
    hide CompareStrings;
    var j :| 0 <= j < |s| && s[j] == y;
    assert Keys(s)[0] == s[0].key && Keys(s)[j] == y.key;
    forall a, b | 0 <= a < b < |s[1..]| ensures CompareStrings(Keys(s[1..])[a], Keys(s[1..])[b], cs) <= 0 {
      assert Keys(s)[a + 1] == Keys(s[1..])[a] && Keys(s)[b + 1] == Keys(s[1..])[b];
    }
  }

  // Where two nodes that follow each other in a merged list come from.
  lemma {:induction false} MergedBefore(f: seq<Item>, g: seq<Item>, x: Item, y: Item, cs: bool)
    requires Ordered(Keys(f), cs) && Ordered(Keys(g), cs) && Before(Merged(f, g, cs), x, y)
    ensures Before(f, x, y) || Before(g, x, y) || (x in g && y in f && CompareStrings(x.key, y.key, cs) <= 0)
            || (x in f && y in g && CompareStrings(x.key, y.key, cs) < 0)
    decreases |f| + |g|
  {
    hide CompareStrings, Ordered, Keys, Before;
    if f != [] && g != [] {
      HeadFirst(f, f[0], cs);
      HeadFirst(g, g[0], cs);
      if CompareStrings(f[0].key, g[0].key, cs) < 0 {
        TakenFirst(f, g, x, y, cs);
      } else {
        Reverse(f[0].key, g[0].key, cs);
        TakenSecond(f, g, x, y, cs);
      }
    }
  }

  lemma {:induction false} TakenFirst(f: seq<Item>, g: seq<Item>, x: Item, y: Item, cs: bool)
    requires f != [] && g != [] && Ordered(Keys(f), cs) && Ordered(Keys(f[1..]), cs) && Ordered(Keys(g), cs)
    requires CompareStrings(f[0].key, g[0].key, cs) < 0 && Before(Merged(f, g, cs), x, y)
    ensures Before(f, x, y) || Before(g, x, y) || (x in g && y in f && CompareStrings(x.key, y.key, cs) <= 0)
            || (x in f && y in g && CompareStrings(x.key, y.key, cs) < 0)
    decreases |f| + |g|, 0
  {
    hide CompareStrings, Ordered, Keys, Before;
    var rest := Merged(f[1..], g, cs);
    BeforeBehind(f[0], rest, x, y);
    assert f == [f[0]] + f[1..];
    BeforeBehind(f[0], f[1..], x, y);
    if Before(rest, x, y) {
      MergedBefore(f[1..], g, x, y, cs);
    } else {
      MergedMembers(f[1..], g, y, cs);
      if y in g {
        HeadFirst(g, y, cs);
        if y != g[0] { StepOver(f[0].key, g[0].key, y.key, cs); }
      }
    }
  }

  lemma {:induction false} TakenSecond(f: seq<Item>, g: seq<Item>, x: Item, y: Item, cs: bool)
    requires f != [] && g != [] && Ordered(Keys(f), cs) && Ordered(Keys(g), cs) && Ordered(Keys(g[1..]), cs)
    requires !(CompareStrings(f[0].key, g[0].key, cs) < 0) && CompareStrings(g[0].key, f[0].key, cs) <= 0
    requires Before(Merged(f, g, cs), x, y)
    ensures Before(f, x, y) || Before(g, x, y) || (x in g && y in f && CompareStrings(x.key, y.key, cs) <= 0)
            || (x in f && y in g && CompareStrings(x.key, y.key, cs) < 0)
    decreases |f| + |g|, 0
  {
    hide CompareStrings, Ordered, Keys, Before;
    var rest := Merged(f, g[1..], cs);
    BeforeBehind(g[0], rest, x, y);
    assert g == [g[0]] + g[1..];
    BeforeBehind(g[0], g[1..], x, y);
    if Before(rest, x, y) {
      MergedBefore(f, g[1..], x, y, cs);
    } else {
      MergedMembers(f, g[1..], y, cs);
      if y in f {
        HeadFirst(f, y, cs);
        if y != f[0] { StepOver(g[0].key, f[0].key, y.key, cs); }
      }
    }
  }

  lemma OrderedBefore(s: seq<Item>, x: Item, y: Item, cs: bool)
    requires Ordered(Keys(s), cs) && Before(s, x, y)
    ensures CompareStrings(x.key, y.key, cs) <= 0
  {
    hide CompareStrings;
    var i, j :| 0 <= i < j < |s| && s[i] == x && s[j] == y;
    assert Keys(s)[i] == x.key && Keys(s)[j] == y.key;
  }

  // The merge of lists in order is in order.
  lemma MergedOrdered(f: seq<Item>, g: seq<Item>, cs: bool)
    requires Ordered(Keys(f), cs) && Ordered(Keys(g), cs)
    ensures Ordered(Keys(Merged(f, g, cs)), cs)
  {
    hide CompareStrings, Merged;
    var r := Merged(f, g, cs);
    forall i, j | 0 <= i < j < |r| ensures CompareStrings(Keys(r)[i], Keys(r)[j], cs) <= 0 {
      assert Before(r, r[i], r[j]);
      MergedBefore(f, g, r[i], r[j], cs);
      if Before(f, r[i], r[j]) { OrderedBefore(f, r[i], r[j], cs); }
      if Before(g, r[i], r[j]) { OrderedBefore(g, r[i], r[j], cs); }
    }
  }

  lemma {:induction false} StrictBefore(l: seq<Item>, i: nat, j: nat, cs: bool)
    requires Strict(l, cs) && i < j < |l|
    ensures CompareStrings(l[i].key, l[j].key, cs) < 0
    decreases j - i
  {
    hide CompareStrings;
    assert l[i] == l[i];
    if i + 1 < j {
      StrictBefore(l, i + 1, j, cs);
      StepOver(l[i].key, l[i + 1].key, l[j].key, cs);
    }
  }

  lemma {:induction false} SortedIs(l: seq<Item>, cs: bool)
    ensures Ordered(Keys(SortedList(l, cs)), cs) && forall x :: x in SortedList(l, cs) <==> x in l
    decreases |l|
  {
    hide CompareStrings, Merged, Strict, Half, Ordered, Keys;
    SortedParts(l, cs);
    if |l| > 1 && !Strict(l, cs) {
      var a, b := l[..Half(|l|)], l[Half(|l|)..];
      SortedIs(a, cs);
      SortedIs(b, cs);
      MergedOrdered(SortedList(a, cs), SortedList(b, cs), cs);
      forall x ensures x in SortedList(l, cs) <==> x in l {
        MergedMembers(SortedList(a, cs), SortedList(b, cs), x, cs);
        assert l == a + b;
      }
    } else {
      StrictOrdered(l, cs);
    }
  }

  lemma StrictOrdered(l: seq<Item>, cs: bool)
    requires |l| <= 1 || Strict(l, cs)
    ensures Ordered(Keys(l), cs)
  {
    hide CompareStrings, Strict;
    forall i, j | 0 <= i < j < |l| ensures CompareStrings(Keys(l)[i], Keys(l)[j], cs)
        <= 0 { StrictBefore(l, i, j, cs); }
  }

  lemma BeforeIn(l: seq<Item>, mid: nat, x: Item, y: Item)
    requires mid <= |l|
    ensures Before(l[..mid], x, y) || Before(l[mid..], x, y) || (x in l[..mid] && y in l[mid..]) ==> Before(l, x, y)
  {
    var a, b := l[..mid], l[mid..];
    if Before(a, x, y) {
      var i, j :| 0 <= i < j < |a| && a[i] == x && a[j] == y;
      assert l[i] == x && l[j] == y;
    }
    if Before(b, x, y) {
      var i, j :| 0 <= i < j < |b| && b[i] == x && b[j] == y;
      assert l[mid + i] == x && l[mid + j] == y;
    }
    if x in a && y in b {
      var i :| 0 <= i < |a| && a[i] == x;
      var j :| 0 <= j < |b| && b[j] == y;
      assert l[i] == x && l[mid + j] == y;
    }
  }

  // Nodes of equal keys come out in reverse order.
  lemma {:induction false} EqualsReversed(l: seq<Item>, x: Item, y: Item, cs: bool)
    requires Before(SortedList(l, cs), x, y) && CompareStrings(x.key, y.key, cs) == 0
    ensures Before(l, y, x)
    decreases |l|
  {
    hide CompareStrings, Merged, Strict, Half, Ordered, Keys, SortedList;
    SortedParts(l, cs);
    if |l| > 1 && !Strict(l, cs) {
      var mid := Half(|l|);
      HalfInside(|l|);
      var a, b := l[..mid], l[mid..];
      SortedIs(a, cs);
      SortedIs(b, cs);
      MergedBefore(SortedList(a, cs), SortedList(b, cs), x, y, cs);
      if Before(SortedList(a, cs), x, y) {
        EqualsReversed(a, x, y, cs);
      } else if Before(SortedList(b, cs), x, y) {
        EqualsReversed(b, x, y, cs);
      }
      BeforeIn(l, mid, y, x);
    } else {
      var i, j :| 0 <= i < j < |l| && l[i] == x && l[j] == y;
      StrictBefore(l, i, j, cs);
      assert false;
    }
  }

  lemma HalfInside(n: nat)
    requires n > 1
    ensures 0 < Half(n) < n
  {
  }

  // ---- Images of shuffled lists ----

  ghost function Image<S, T>(f: S -> T, s: seq<S>): (r: seq<T>)
    ensures |r| == |s|
  {
    seq(|s|, i requires 0 <= i < |s| => f(s[i]))
  }

  lemma Cancel<S>(x: S, s: seq<S>, a: seq<S>, b: seq<S>)
    requires multiset([x] + s) == multiset(a + [x] + b)
    ensures multiset(s) == multiset(a + b)
  {
    assert multiset([x] + s) == multiset{x} + multiset(s);
    assert multiset(a + [x] + b) == multiset(a) + multiset{x} + multiset(b);
    assert multiset(a + b) == multiset(a) + multiset(b);
    assert multiset(s) == multiset([x] + s) - multiset{x};
    assert multiset(a + b) == multiset(a + [x] + b) - multiset{x};
  }

  lemma ImageJoin<S, T>(f: S -> T, a: seq<S>, b: seq<S>)
    ensures multiset(Image(f, a + b)) == multiset(Image(f, a)) + multiset(Image(f, b))
  {
    assert Image(f, a + b) == Image(f, a) + Image(f, b);
  }

  // Equal multisets stay equal element by element.
  lemma {:induction false} ImageShuffled<S, T>(f: S -> T, l: seq<S>, r: seq<S>)
    requires multiset(l) == multiset(r)
    ensures multiset(Image(f, l)) == multiset(Image(f, r)) && |l| == |r|
    decreases |l|
  {
    hide Image;
    assert |multiset(l)| == |l| && |multiset(r)| == |r|;
    if l != [] {
      SameElements(r, l);
      assert l[0] in r;
      var k :| 0 <= k < |r| && r[k] == l[0];
      var a, b := r[..k], r[k + 1..];
      assert l == [l[0]] + l[1..] && r == a + [r[k]] + b;
      Cancel(l[0], l[1..], a, b);
      ImageShuffled(f, l[1..], a + b);
      ImageJoin(f, [l[0]], l[1..]);
      ImageJoin(f, a, b);
      ImageJoin(f, a, [r[k]]);
      ImageJoin(f, a + [r[k]], b);
    }
  }
}
