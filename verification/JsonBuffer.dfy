// Printing into one growing buffer (component/cJSON/cJSON.c, ensure, update and the
// buffered halves of print_value, print_array and print_object).
module JsonBuffer {
  import opened Arith
  import opened JsonValues
  import opened JsonText
  import opened JsonPrint
  import opened Sequences

  // ---- The buffer ----

  class PrintBuffer {
    var buffer: array<char>
    var offset: nat

    constructor (prebuffer: nat)
      ensures fresh(buffer) && buffer.Length == prebuffer && offset == 0
    {
      buffer := new char[prebuffer];
      offset := 0;
    }
  }

  // pow2gt: the smallest power of two that is no less.
  function Pow2Gt(x: nat): (r: nat)
    ensures r >= x && r > 0 && (x > 0 ==> r < 2 * x)
    ensures exists k: nat :: Twos(k) == r
  {
    if x <= 1 then
      assert Twos(0) == 1;
      1
    else
      var r := Pow2Gt((x + 1) / 2);
      PowerUp(r);
      2 * r
  }

  lemma PowerUp(r: nat)
    requires exists k: nat :: Twos(k) == r
    ensures exists k: nat :: Twos(k) == 2 * r
  {
    var k: nat :| Twos(k) == r;
    assert Twos(k + 1) == 2 * r;
  }

  // The text up to the write position is `s`.
  ghost predicate Upto(p: PrintBuffer, s: Text)
    reads p, p.buffer
  {
    p.offset == |s| <= p.buffer.Length && p.buffer[..|s|] == s
  }

  // The text `s`, terminated, is in the buffer, the write position not past its end.
  ghost predicate Holds(p: PrintBuffer, s: Text)
    reads p, p.buffer
  {
    p.offset <= |s| < p.buffer.Length && p.buffer[..|s|] == s && p.buffer[|s|] == '\0'
  }

  // ensure: room for so many characters at the write position, in a copy if need be.
  method Ensure(p: PrintBuffer, needed: nat)
    requires p.offset <= p.buffer.Length
    modifies p`buffer
    ensures p.offset + needed <= p.buffer.Length
    ensures old(p.buffer.Length) <= p.buffer.Length && p.buffer[..old(p.buffer.Length)] == old(p.buffer[..])
    ensures p.buffer == old(p.buffer) <==> p.offset + needed <= old(p.buffer.Length)
    ensures p.buffer != old(p.buffer) ==> fresh(p.buffer) && p.buffer.Length < 2 * (p.offset + needed)
    ensures p.buffer != old(p.buffer) ==> exists k: nat :: Twos(k) == p.buffer.Length
  {
    var total := needed + p.offset;
    if total <= p.buffer.Length {
      assert p.buffer[..p.buffer.Length] == p.buffer[..];
      return;
    }
    var newbuffer := new char[Pow2Gt(total)];
    var full := p.buffer;
    var i := 0;
    while i < full.Length
      invariant i <= full.Length && forall k :: 0 <= k < i ==> newbuffer[k] == full[k]
      modifies newbuffer
    {
      newbuffer[i] := full[i];
      i := i + 1;
    }
    p.buffer := newbuffer;
  }

  // update: the write position moved behind the text just printed.
  method Update(p: PrintBuffer, ghost s: Text)
    requires Holds(p, s) && NoZero(s)
    modifies p`offset
    ensures Upto(p, s)
  {
    assert forall k :: 0 <= k < |s| ==> p.buffer[k] == p.buffer[..|s|][k];
    var n := 0;
    while p.buffer[p.offset + n] != '\0'
      invariant p.offset + n <= |s|
      decreases |s| - n
    {
      n := n + 1;
    }
    p.offset := p.offset + n;
  }

  ghost predicate NoZero(s: Text) {
    forall i :: 0 <= i < |s| ==> s[i] != '\0'
  }

  // A text at the write position, which moves behind it.
  method Emit(p: PrintBuffer, t: Text, needed: nat, terminate: bool, ghost s: Text)
    requires Upto(p, s) && |t| + (if terminate then 1 else 0) <= needed
    modifies p, p.buffer
    ensures Upto(p, s + t) && (terminate ==> Holds(p, s + t))
    ensures p.buffer == old(p.buffer) || fresh(p.buffer)
  {
    Ensure(p, needed);
    assert p.buffer[..|s|] == s;
    var at := p.offset;
    Store(p.buffer, at, t);
    assert p.buffer[..at + |t|] == p.buffer[..at] + p.buffer[at..at + |t|];
    if terminate {
      ghost var before := p.buffer[..at + |t|];
      p.buffer[at + |t|] := '\0';
      assert p.buffer[..at + |t|] == before;
    }
    p.offset := at + |t|;
  }

  // A terminated text at the write position, which stays.
  method Put(p: PrintBuffer, t: Text, needed: nat, ghost s: Text)
    requires Upto(p, s) && |t| < needed
    modifies p, p.buffer
    ensures Holds(p, s + t) && p.offset == old(p.offset)
    ensures p.buffer == old(p.buffer) || fresh(p.buffer)
  {
    var at := p.offset;
    Emit(p, t, needed, true, s);
    p.offset := at;
  }

  // print_string_ptr into the buffer.
  method PutString(p: PrintBuffer, str: Text, ghost s: Text)
    requires Upto(p, s)
    modifies p, p.buffer
    ensures Holds(p, s + Quoted(str)) && p.offset == old(p.offset)
    ensures p.buffer == old(p.buffer) || fresh(p.buffer)
  {
    hide Quoted, EscapedText;
    var room, flag := Measure(str);
    Ensure(p, room);
    assert p.buffer[..|s|] == s;
    Quote(p.buffer, p.offset, str, flag);
    ghost var n := |Quoted(str)|;
    assert p.buffer[..|s| + n] == p.buffer[..|s|] + p.buffer[|s|..|s| + n];
  }

  // ---- Values ----

  // print_value with a buffer: the text of the value behind what is there.
  method PrintValue(j: Json, depth: nat, fmt: bool, p: PrintBuffer, ghost s: Text)
    requires Upto(p, s) && NoZero(s) && Printable(j)
    modifies p, p.buffer
    ensures Holds(p, s + Print(j, depth, fmt)) && |s| <= p.offset
    ensures p.buffer == old(p.buffer) || fresh(p.buffer)
    decreases j, 1
  {
    hide Upto, Holds, PrintItems, PrintMembers, Quoted, NumberText;
    AtEnd(p, s);
    match j {
      case Null => Put(p, "null", 5, s);
      case Bool(b) =>
        if b {
          Put(p, "true", 5, s);
        } else {
          Put(p, "false", 6, s);
        }
      case Number(n) =>
        NumberRoom(n);
        if n == 0 {
          Put(p, "0", 2, s);
        } else {
          Put(p, NumberText(n), 21, s);
        }
      case String(t) => PutString(p, t, s);
      case Array(items) => PrintArray(j, depth, fmt, p, s);
      case Object(ms) => PrintObject(j, depth, fmt, p, s);
    }
  }

  lemma AtEnd(p: PrintBuffer, s: Text)
    requires Upto(p, s)
    ensures p.offset == |s|
  {
  }

  // A 32-bit number fits the room asked for it.
  lemma NumberRoom(n: int)
    requires Int32(n)
    ensures |NumberText(n)| <= 11 && NumberText(0) == "0"
  {
    DecimalRoom(if n < 0 then -n else n, 10);
  }

  lemma {:induction false} DecimalRoom(n: nat, k: nat)
    requires 0 < k <= 10 && n < Power(k)
    ensures |Decimal(n)| <= k
  {
    if n >= 10 { DecimalRoom(n / 10, k - 1); }
  }

  function Power(k: nat): nat {
    if k == 0 then 1 else 10 * Power(k - 1)
  }

  // Printed texts hold no zero.
  lemma {:induction false} NoZeroPrinted(j: Json, depth: nat, fmt: bool)
    requires Printable(j)
    ensures NoZero(Print(j, depth, fmt))
    decreases j, 1
  {
    hide Quoted, PrintItems, PrintMembers, Tabs, Decimal;
    match j
    case Array(items) => if items != [] { NoZeroItems(j, 0, depth + 1, fmt); }
    case Object(ms) =>
      NoZeroTabs(depth);
      NoZeroTabs(depth - 1);
      if ms != [] { NoZeroMembers(j, 0, depth + 1, fmt); }
    case String(t) => NoZeroQuoted(t);
    case _ =>
  }

  lemma {:induction false} NoZeroItems(j: Json, i: nat, depth: nat, fmt: bool)
    requires j.Array? && i < |j.items| && Printable(j)
    ensures NoZero(PrintItems(j, i, depth, fmt))
    decreases j, 0, |j.items| - i
  {
    NoZeroPrinted(j.items[i], depth, fmt);
    if i + 1 < |j.items| { NoZeroItems(j, i + 1, depth, fmt); }
  }

  lemma {:induction false} NoZeroMembers(j: Json, i: nat, depth: nat, fmt: bool)
    requires j.Object? && i <= |j.members| && Printable(j)
    ensures NoZero(PrintMembers(j, i, depth, fmt))
    decreases j, 0, |j.members| - i
  {
    hide Quoted, Tabs, Print;
    if i < |j.members| {
      NoZeroPrinted(j.members[i].value, depth, fmt);
      NoZeroMembers(j, i + 1, depth, fmt);
      NoZeroQuoted(j.members[i].key);
      NoZeroTabs(depth);
    }
  }

  lemma {:induction false} NoZeroTabs(n: int)
    ensures NoZero(Tabs(n))
  {
    if n > 0 { NoZeroTabs(n - 1); }
  }

  lemma {:induction false} NoZeroEscaped(s: Text)
    requires ByteText(s)
    ensures NoZero(EscapedText(s))
  {
    if s != [] { NoZeroEscaped(s[1..]); }
  }

  lemma NoZeroQuoted(s: Text)
    requires ByteText(s)
    ensures NoZero(Quoted(s))
  {
    hide EscapedText;
    NoZeroEscaped(s);
  }

  // print_array with a buffer.
  method PrintArray(j: Json, depth: nat, fmt: bool, p: PrintBuffer, ghost s: Text)
    requires j.Array? && Upto(p, s) && NoZero(s) && Printable(j)
    modifies p, p.buffer
    ensures Holds(p, s + Print(j, depth, fmt)) && |s| <= p.offset
    ensures p.buffer == old(p.buffer) || fresh(p.buffer)
    decreases j, 0
  {
    hide Upto, Holds, Print, PrintItems, Printable, ItemGap, ItemsFrom, NoZero;
    ArrayText(j, depth, fmt);
    AtEnd(p, s);
    var n := |j.items|;
    if n == 0 {
      Put(p, "[]", 3, s);
      return;
    }
    Emit(p, "[", 1, false, s);
    ghost var t := s + "[";
    NoZeroJoin(s, "[");
    var i := 0;
    while i < n
      invariant i <= n && Upto(p, t) && NoZero(t) && |s| <= |t|
      invariant t + ItemsFrom(j, i, depth + 1, fmt) == s + "[" + ItemsFrom(j, 0, depth + 1, fmt)
      invariant p.buffer == old(p.buffer) || fresh(p.buffer)
    {
      ghost var v := Print(j.items[i], depth + 1, fmt);
      PrintableItem(j, i);
      ItemsStep(t, j, i, depth + 1, fmt);
      NoZeroPrinted(j.items[i], depth + 1, fmt);
      NoZeroJoin(t, v);
      NoZeroJoin(t + v, ItemGap(j, i, fmt));
      GapText(j, i, fmt);
      PrintValue(j.items[i], depth + 1, fmt, p, t);
      Update(p, t + v);
      if i + 1 < n {
        var len := if fmt then 2 else 1;
        Emit(p, if fmt then ", " else ",", len + 1, true, t + v);
      }
      t := t + v + ItemGap(j, i, fmt);
      i := i + 1;
    }
    AtEnd(p, t);
    LastItem(t, s, j, depth + 1, fmt);
    Put(p, "]", 2, t);
  }

  lemma NoZeroJoin(a: Text, b: Text)
    ensures NoZero(a) && NoZero(b) ==> NoZero(a + b)
    ensures NoZero("[") && NoZero("{") && NoZero("{\n") && NoZero(":") && NoZero(":\t")
  {
  }

  lemma GapText(j: Json, i: nat, fmt: bool)
    requires j.Array? && i < |j.items|
    ensures NoZero(ItemGap(j, i, fmt))
    ensures i + 1 < |j.items| ==> ItemGap(j, i, fmt) == if fmt then ", " else ","
    ensures i + 1 == |j.items| ==> forall t: Text :: t + ItemGap(j, i, fmt) == t
  {
  }

  lemma LastItem(t: Text, s: Text, j: Json, depth: nat, fmt: bool)
    requires j.Array? && j.items != []
    requires t + ItemsFrom(j, |j.items|, depth, fmt) == s + "[" + ItemsFrom(j, 0, depth, fmt)
    ensures t + "]" == s + ("[" + PrintItems(j, 0, depth, fmt) + "]")
  {
    hide PrintItems;
    assert t + [] == t;
    var x := PrintItems(j, 0, depth, fmt);
    Regroup(s, "[", x, "]");
    Associate("[", x, "]");
  }

  // print_object with a buffer.
  method PrintObject(j: Json, depth0: nat, fmt: bool, p: PrintBuffer, ghost s: Text)
    requires j.Object? && Upto(p, s) && NoZero(s) && Printable(j)
    modifies p, p.buffer
    ensures Holds(p, s + Print(j, depth0, fmt)) && |s| <= p.offset
    ensures p.buffer == old(p.buffer) || fresh(p.buffer)
    decreases j, 0
  {
    hide Upto, Holds, Print, PrintMembers, PrintMember, Printable, NoZero, Quoted, Tabs;
    AtEnd(p, s);
    TabsLength(depth0 - 1);
    TabsLength(depth0);
    var n := |j.members|;
    if n == 0 {
      EmptyObject(j, depth0, fmt);
      var tabs := TabText(depth0 - 1);
      Put(p, "{" + (if fmt then "\n" + tabs else "") + "}", if fmt then depth0 + 4 else 3, s);
      return;
    }
    var len := if fmt then 2 else 1;
    var open := if fmt then "{\n" else "{";
    Emit(p, open, len + 1, true, s);
    var depth := depth0 + 1;
    ghost var t := s + open;
    NoZeroJoin(s, open);
    var i := 0;
    while i < n
      invariant i <= n && Upto(p, t) && NoZero(t) && |s| <= |t|
      invariant t + PrintMembers(j, i, depth, fmt) == s + open + PrintMembers(j, 0, depth, fmt)
      invariant p.buffer == old(p.buffer) || fresh(p.buffer)
    {
      PrintableItem(j, i);
      MembersStep(t, j, i, depth, fmt);
      t := EmitMember(j, i, depth, fmt, p, t);
      i := i + 1;
    }
    AtEnd(p, t);
    var tabs := TabText(depth - 1);
    Put(p, (if fmt then tabs else "") + "}", if fmt then depth + 1 else 2, t);
    LastMember(t, s, j, depth0, fmt);
  }

  lemma {:induction false} TabsLength(n: int)
    ensures |Tabs(n)| == (if n <= 0 then 0 else n)
  {
    if n > 0 { TabsLength(n - 1); }
  }

  lemma LastMember(t: Text, s: Text, j: Json, depth: nat, fmt: bool)
    requires j.Object? && j.members != []
    requires t + PrintMembers(j, |j.members|, depth + 1, fmt)
             == s + (if fmt then "{\n" else "{") + PrintMembers(j, 0, depth + 1, fmt)
    ensures t + ((if fmt then Tabs(depth) else "") + "}") == s + Print(j, depth, fmt)
  {
    hide PrintMembers, Tabs, Print;
    ObjectParts(j, depth, fmt);
    MembersEnd(j, depth + 1, fmt);
    assert t + [] == t;
    var m, e, nl := PrintMembers(j, 0, depth + 1, fmt), if fmt then Tabs(depth) else "", if fmt then "\n" else "";
    assert (if fmt then "{\n" else "{") == "{" + nl;
    Regroup(s, "{" + nl, m, e + "}");
    assert "{" + nl + m + e + "}" == "{" + nl + m + (e + "}");
    assert t + (e + "}") == s + ("{" + nl) + m + (e + "}");
    assert s + ("{" + nl) + m + (e + "}") == s + ("{" + nl + (m + (e + "}")));
    assert "{" + nl + (m + (e + "}")) == "{" + nl + m + (e + "}");
  }

  // One turn of the loop of print_object: tabs, key, colon, value, separator.
  method EmitMember(j: Json, i: nat, depth: nat, fmt: bool, p: PrintBuffer, ghost s: Text) returns (ghost t: Text)
    requires j.Object? && i < |j.members| && Printable(j.members[i].value) && ByteText(j.members[i].key)
    requires Upto(p, s) && NoZero(s)
    modifies p, p.buffer
    ensures t == s + PrintMember(j.members[i], Print(j.members[i].value, depth, fmt), depth, fmt, i + 1 < |j.members|)
    ensures Upto(p, t) && NoZero(t)
    ensures p.buffer == old(p.buffer) || fresh(p.buffer)
    decreases j, 0, 0
  {
    hide Upto, Holds, Print, PrintMember, Printable, NoZero, Quoted, Tabs, ByteText;
    var m := j.members[i];
    var more := i + 1 < |j.members|;
    t := s;
    if fmt {
      var tabs := TabText(depth);
      TabsLength(depth);
      NoZeroTabs(depth);
      Emit(p, tabs, depth, false, t);
      NoZeroJoin(t, tabs);
      t := t + tabs;
    }
    PutString(p, m.key, t);
    NoZeroQuoted(m.key);
    NoZeroJoin(t, Quoted(m.key));
    t := t + Quoted(m.key);
    Update(p, t);
    var colon := if fmt then ":\t" else ":";
    Emit(p, colon, |colon|, false, t);
    NoZeroJoin(t, colon);
    t := t + colon;
    PrintValue(m.value, depth, fmt, p, t);
    NoZeroPrinted(m.value, depth, fmt);
    NoZeroJoin(t, Print(m.value, depth, fmt));
    t := t + Print(m.value, depth, fmt);
    Update(p, t);
    var tail := (if more then "," else "") + (if fmt then "\n" else "");
    Emit(p, tail, |tail| + 1, true, t);
    NoZeroTail(more, fmt);
    NoZeroJoin(t, tail);
    t := t + tail;
    EmittedParts(s, m, Print(m.value, depth, fmt), depth, fmt, more);
  }

  lemma NoZeroTail(more: bool, fmt: bool)
    ensures NoZero((if more then "," else "") + (if fmt then "\n" else ""))
  {
  }

  lemma EmittedParts(s: Text, m: Member, v: Text, depth: nat, fmt: bool, more: bool)
    ensures s + PrintMember(m, v, depth, fmt, more)
         == (if fmt then s + Tabs(depth) else s) + Quoted(m.key) + (if fmt then ":\t" else ":") + v
             + ((if more then "," else "") + (if fmt then "\n" else ""))
  {
    hide PrintMember, Tabs, Quoted;
    MemberParts(s, m, v, depth, fmt, more);
    var a := (if fmt then s + Tabs(depth) else s) + Quoted(m.key);
    var b := if fmt then "\t" else "";
    assert a + ":" + b == a + (":" + b) && ":" + b == if fmt then ":\t" else ":";
    var x := a + ":" + b + v;
    Associate(x, if more then "," else "", if fmt then "\n" else "");
  }

  // ---- cJSON_PrintBuffered ----

  // Whatever the first size of the buffer, the text is the one the joining printer
  // makes.
  method PrintBuffered(j: Json, prebuffer: nat, fmt: bool) returns (out: array<char>)
    requires Printable(j)
    ensures Stored(out, 0, Print(j, 0, fmt))
  {
    hide Print, Printable;
    var p := new PrintBuffer(prebuffer);
    assert [] + Print(j, 0, fmt) == Print(j, 0, fmt);
    PrintValue(j, 0, fmt, p, []);
    out := p.buffer;
    assert out[0..|Print(j, 0, fmt)|] == out[..|Print(j, 0, fmt)|];
  }
}
