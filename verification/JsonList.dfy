// The child list of an array or object on the heap: taking a node out, putting one in, in
// place (component/cJSON/cJSON_Utils.c, detach_item_from_array and insert_item_in_array;
// component/cJSON/cJSON.c, cJSON_AddItemToArray).
module JsonList {
  import opened JsonSort

  // The child list of an array or object.
  ghost predicate Holds(a: Item, l: seq<Item>)
    reads a`child, l`next, l`prev
  {
    DoublyLinked(l, a.child)
  }

  // A node that is on no list.
  ghost predicate Loose(x: Item, l: seq<Item>)
    reads x`next, x`prev
  {
    x.next == null && x.prev == null && x !in l
  }

  // The node `which` places down the list, if the list is that long; `left` counts the
  // places missing.
  method ItemAt(a: Item, which: nat, ghost l: seq<Item>) returns (c: Item?, left: nat)
    requires Holds(a, l)
    ensures c == (if which < |l| then l[which] else null)
    ensures left == (if which < |l| then 0 else which - |l|)
  {
    c, left := a.child, which;
    ghost var k := 0;
    while c != null && left > 0
      invariant k <= |l| && c == (if k < |l| then l[k] else null) && left + k == which
      decreases |l| - k
    {
      NextOf(l, k);
      c, left, k := c.next, left - 1, k + 1;
    }
  }

  // The neighbours of the node at a place.
  lemma EdgesOf(l: seq<Item>, k: nat)
    requires Links(l) && Ends(l) && k < |l| && l[0].prev == null
    ensures l[k].next == (if k + 1 < |l| then l[k + 1] else null)
    ensures l[k].prev == (if k > 0 then l[k - 1] else null)
  {
    if k > 0 { assert l[k - 1].next == l[k - 1 + 1] && l[k - 1 + 1].prev == l[k - 1]; }
  }

  // The neighbours of a node are made neighbours of each other.
  method Bridge(a: Item, c: Item, ghost l: seq<Item>, ghost k: nat)
    requires Holds(a, l) && k < |l| && c == l[k]
    modifies a`child, l`next, l`prev
    ensures Distinct(l[..k] + l[k + 1..]) && Holds(a, l[..k] + l[k + 1..]) && c !in l[..k] + l[k + 1..]
  {
    ghost var r := l[..k] + l[k + 1..];
    EdgesOf(l, k);
    if c.prev != null {
      c.prev.next := c.next;
    }
    if c.next != null {
      c.next.prev := c.prev;
    }
    if c == a.child {
      a.child := c.next;
    }
    forall i | 0 <= i < |r| ensures r[i] == l[if i < k then i else i + 1] {}
    assert Links(r) by {
      forall i | 0 <= i < |r| - 1 ensures r[i].next == r[i + 1] && r[i + 1].prev == r[i] {
        if i + 1 < k {
          assert l[i].next == l[i + 1] && l[i + 1].prev == l[i];
        } else if i + 1 > k {
          assert l[i + 1].next == l[i + 2] && l[i + 2].prev == l[i + 1];
        }
      }
    }
  }

  // detach_item_from_array: the node at an index leaves the list, which closes up.
  method Detach(a: Item, which: nat, ghost l: seq<Item>) returns (c: Item?)
    requires Holds(a, l)
    modifies a`child, l`next, l`prev
    ensures c == null <==> which >= |l|
    ensures c == null ==> Holds(a, l) && a.child == old(a.child)
    ensures c != null
            ==> c == l[which] && Holds(a, l[..which] + l[which + 1..]) && Loose(c, l[..which] + l[which + 1..])
  {
    var left;
    c, left := ItemAt(a, which, l);
    if c == null {
      return;
    }
    Bridge(a, c, l, which);
    c.prev, c.next := null, null;
  }

  // cJSON_AddItemToArray: the new node goes behind the last.
  method AddItem(a: Item, x: Item, ghost l: seq<Item>)
    requires Holds(a, l) && Loose(x, l)
    modifies a`child, x`prev, l`next
    ensures Holds(a, l + [x])
  {
    var c := a.child;
    if c == null {
      a.child := x;
    } else {
      ghost var k := 0;
      while c != null && c.next != null
        invariant k < |l| && c == l[k] && Holds(a, l) && Loose(x, l) && a.child == old(a.child)
        decreases |l| - k
      {
        NextOf(l, k);
        c, k := c.next, k + 1;
      }
      NextOf(l, k);
      c.next := x;
      x.prev := c;
    }
    assert x.next == null;
    SingleLinks(x);
    assert Links(l);
    LinksJoin(l, [x]);
  }

  // The new node between a node and the one before it.
  method InsertBefore(a: Item, child: Item, x: Item, ghost l: seq<Item>, ghost k: nat)
    requires Holds(a, l) && Loose(x, l) && k < |l| && child == l[k]
    modifies a`child, x`next, x`prev, l`next, l`prev
    ensures Holds(a, l[..k] + [x] + l[k..])
  {
    EdgesOf(l, k);
    x.next, x.prev := child, child.prev;
    child.prev := x;
    if child == a.child {
      a.child := x;
    } else {
      x.prev.next := x;
    }
    Between(a, l, k, x);
  }

  // Two linked parts of a list with a node between that points to both sides.
  lemma Between(a: Item, l: seq<Item>, k: nat, x: Item)
    requires Distinct(l) && x !in l && k < |l| && Ends(l) && l[k].prev == x && x.next == l[k]
    requires x.prev == (if k > 0 then l[k - 1] else null) && a.child == (if k > 0 then l[0] else x)
    requires k > 0 ==> l[0].prev == null && l[k - 1].next == x
    requires forall i :: 0 <= i < |l| - 1 && i != k - 1 ==> l[i].next == l[i + 1] && l[i + 1].prev == l[i]
    ensures Holds(a, l[..k] + [x] + l[k..])
  {
    SingleLinks(x);
    assert Links(l[..k]);
    assert Links(l[k..]);
    LinksJoin([x], l[k..]);
    LinksJoin(l[..k], [x] + l[k..]);
    assert l[..k] + [x] + l[k..] == l[..k] + ([x] + l[k..]);
  }

  // insert_item_in_array: the new node goes to the index, up to the end of the list.
  method Insert(a: Item, which: nat, x: Item, ghost l: seq<Item>) returns (ok: bool)
    requires Holds(a, l) && Loose(x, l)
    modifies a`child, x`next, x`prev, l`next, l`prev
    ensures ok <==> which <= |l|
    ensures ok ==> Holds(a, l[..which] + [x] + l[which..])
    ensures !ok ==> Holds(a, l) && a.child == old(a.child) && Loose(x, l)
  {
    var child, left := ItemAt(a, which, l);
    if left > 0 {
      return false;
    }
    if child == null {
      AddItem(a, x, l);
      assert l[..which] + [x] + l[which..] == l + [x];
      return true;
    }
    InsertBefore(a, child, x, l, which);
    return true;
  }
}
