// The two ways cJSON prints (component/cJSON/cJSON.c): into one growing buffer, and by
// rendering the parts and joining them.
module JsonPrint {
  import opened JsonValues
  import opened JsonText
  import opened Sequences

  // ---- Writing into memory ----

  // Stores a text at an index.
  method Store(a: array<char>, at: nat, s: Text)
    requires at + |s| <= a.Length
    modifies a
    ensures a[..at] == old(a[..at]) && a[at..at + |s|] == s && a[at + |s|..] == old(a[at + |s|..])
  {
    var i := 0;
    while i < |s|
      invariant i <= |s|
      invariant forall k :: 0 <= k < i ==> a[at + k] == s[k]
      invariant forall k :: (0 <= k < at || at + i <= k < a.Length) ==> a[k] == old(a[k])
    {
      a[at + i] := s[i];
      i := i + 1;
    }
  }

  // The text at an index, and a terminating zero behind it.
  ghost predicate Stored(a: array<char>, at: nat, s: Text)
    reads a
  {
    at + |s| < a.Length && a[at..at + |s|] == s && a[at + |s|] == '\0'
  }

  // ---- Strings ----

  lemma {:induction false} EscapedJoin(a: Text, b: Text)
    ensures EscapedText(a + b) == EscapedText(a) + EscapedText(b)
  {
    hide Escaped;
    if a == [] {
      assert a + b == b;
    } else {
      EscapedJoin(a[1..], b);
      assert (a + b)[1..] == a[1..] + b;
      Associate(Escaped(a[0]), EscapedText(a[1..]), EscapedText(b));
    }
  }

  lemma EscapedMore(s: Text, i: nat)
    requires i < |s|
    ensures EscapedText(s[..i + 1]) == EscapedText(s[..i]) + Escaped(s[i])
    ensures |EscapedText(s[..i + 1])| <= |EscapedText(s)|
  {
    hide Escaped;
    assert s[..i + 1] == s[..i] + [s[i]];
    EscapedJoin(s[..i], [s[i]]);
    assert EscapedText([s[i]]) == Escaped(s[i]) + EscapedText([]);
    assert s == s[..i + 1] + s[i + 1..];
    EscapedJoin(s[..i + 1], s[i + 1..]);
  }

  // The first pass of print_string_ptr: does any character need an escape?
  method NeedsEscape(s: Text) returns (flag: bool)
    ensures !flag ==> EscapedText(s) == s
  {
    hide EscapedText;
    flag := false;
    var i := 0;
    EscapedNothing();
    assert s[..0] == [];
    while i < |s|
      invariant i <= |s| && (!flag ==> EscapedText(s[..i]) == s[..i])
    {
      EscapedMore(s, i);
      assert s[..i + 1] == s[..i] + [s[i]];
      flag := flag || s[i] < ' ' || s[i] == '\"' || s[i] == '\\';
      i := i + 1;
    }
    assert s[..i] == s;
  }

  lemma EscapedNothing()
    ensures EscapedText([]) == []
  {
  }

  predicate HasShortEscape(c: char) {
    c == '\"' || c == '\\' || c == '\U{8}' || c == '\U{c}' || c == '\n' || c == '\r' || c == '\t'
  }

  // The second pass: the room the escaped text takes.
  method EscapedLength(s: Text) returns (len: nat)
    ensures len == |EscapedText(s)|
  {
    hide EscapedText;
    len := 0;
    var i := 0;
    EscapedNothing();
    assert s[..0] == [];
    while i < |s|
      invariant i <= |s| && len == |EscapedText(s[..i])|
    {
      EscapedMore(s, i);
      len := len + 1;
      if HasShortEscape(s[i]) {
        len := len + 1;
      } else if s[i] < ' ' {
        len := len + 5;
      }
      i := i + 1;
    }
    assert s[..i] == s;
  }

  // The third pass: the quoted, escaped text, character by character.
  method Render(a: array<char>, at: nat, s: Text)
    requires at + |Quoted(s)| < a.Length
    modifies a
    ensures a[..at] == old(a[..at]) && Stored(a, at, Quoted(s))
  {
    hide EscapedText, Escaped;
    a[at] := '\"';
    var p, i := at + 1, 0;
    EscapedNothing();
    assert s[..0] == [];
    while i < |s|
      invariant i <= |s| && p == at + 1 + |EscapedText(s[..i])| && p <= at + 1 + |EscapedText(s)|
      invariant a[..at] == old(a[..at]) && a[at] == '\"' && a[at + 1..p] == EscapedText(s[..i])
    {
      EscapedMore(s, i);
      ghost var before := a[..p];
      Store(a, p, Escaped(s[i]));
      assert a[..at] == before[..at] && a[at] == before[at] && a[at + 1..p] == before[at + 1..p];
      assert a[at + 1..p + |Escaped(s[i])|] == a[at + 1..p] + a[p..p + |Escaped(s[i])|];
      p := p + |Escaped(s[i])|;
      i := i + 1;
    }
    assert s[..i] == s;
    a[p] := '\"';
    a[p + 1] := '\0';
    assert a[at..p + 1] == Quoted(s);
  }

  // What print_string_ptr asks for: the room, and whether escapes are needed.
  method Measure(s: Text) returns (room: nat, flag: bool)
    ensures room == |Quoted(s)| + 1 && (!flag ==> EscapedText(s) == s)
  {
    hide EscapedText;
    flag := NeedsEscape(s);
    var len := |s|;
    if flag {
      len := EscapedLength(s);
    }
    room := len + 3;
  }

  // The writing half of print_string_ptr.
  method Quote(a: array<char>, at: nat, s: Text, flag: bool)
    requires at + |Quoted(s)| < a.Length && (!flag ==> EscapedText(s) == s)
    modifies a
    ensures a[..at] == old(a[..at]) && Stored(a, at, Quoted(s))
  {
    hide EscapedText;
    if !flag {
      a[at] := '\"';
      Store(a, at + 1, s);
      ghost var before := a[..at + 1 + |s|];
      a[at + 1 + |s|] := '\"';
      a[at + 1 + |s| + 1] := '\0';
      assert a[..at + 1 + |s|] == before && before[at..] == ['\"'] + s;
      assert a[at..at + 1 + |s|] == ['\"'] + s;
      assert a[at..at + 1 + |s| + 1] == Quoted(s);
    } else {
      Render(a, at, s);
    }
  }

  // ---- Rendering and joining ----

  method JoinedString(s: Text) returns (t: Text)
    ensures t == Quoted(s)
  {
    var room, flag := Measure(s);
    var a := new char[room];
    Quote(a, 0, s, flag);
    t := a[..room - 1];
  }

  // print_value without a buffer.
  method PrintJoined(j: Json, depth: nat, fmt: bool) returns (out: Text)
    requires Typed(j)
    ensures out == Print(j, depth, fmt)
    decreases j, 1
  {
    hide PrintItems, PrintMembers, Quoted, NumberText;
    match j {
      case Null => return "null";
      case Bool(b) => return if b then "true" else "false";
      case Number(n) => return NumberText(n);
      case String(s) => out := JoinedString(s);
      case Array(items) => out := JoinArray(j, depth, fmt);
      case Object(ms) => out := JoinObject(j, depth, fmt);
    }
  }

  // print_array: the elements rendered one by one, then put together.
  method JoinArray(j: Json, depth: nat, fmt: bool) returns (out: Text)
    requires Typed(j)
    requires j.Array?
    ensures out == Print(j, depth, fmt)
    decreases j, 0
  {
    var n := |j.items|;
    if n == 0 {
      return "[]";
    }
    var entries: seq<Text> := [];
    while |entries| < n
      invariant |entries| <= n && forall k :: 0 <= k < |entries| ==> entries[k] == Print(j.items[k], depth + 1, fmt)
      decreases n - |entries|
    {
      var ret := PrintJoined(j.items[|entries|], depth + 1, fmt);
      entries := entries + [ret];
    }
    hide Print, PrintItems, ItemGap;
    out := "[";
    var i := 0;
    while i < n
      invariant i <= n && out + ItemsFrom(j, i, depth + 1, fmt) == "[" + ItemsFrom(j, 0, depth + 1, fmt)
    {
      ItemsStep(out, j, i, depth + 1, fmt);
      out := JoinItem(out, entries[i], i != n - 1, fmt, j, i);
      i := i + 1;
    }
    assert out + [] == out;
    out := out + "]";
    ArrayText(j, depth, fmt);
  }

  // One turn of the composing loop of print_array.
  method JoinItem(out0: Text, entry: Text, more: bool, fmt: bool, ghost j: Json, ghost i: nat) returns (out: Text)
    requires j.Array? && i < |j.items| && (more <==> i + 1 < |j.items|)
    ensures out == out0 + entry + ItemGap(j, i, fmt)
  {
    out := out0 + entry;
    if more {
      out := out + ",";
      if fmt {
        out := out + " ";
      }
      assert out == out0 + entry + (if fmt then ", " else ",");
    }
  }

  // What stands behind an element.
  function ItemGap(j: Json, i: nat, fmt: bool): Text
    requires j.Array? && i < |j.items|
  {
    if i + 1 < |j.items| then (if fmt then ", " else ",") else []
  }

  // The elements still to come.
  function ItemsFrom(j: Json, i: nat, depth: nat, fmt: bool): Text
    requires j.Array? && i <= |j.items|
  {
    if i < |j.items| then PrintItems(j, i, depth, fmt) else []
  }

  lemma ItemsStep(out: Text, j: Json, i: nat, depth: nat, fmt: bool)
    requires j.Array? && i < |j.items|
    ensures out + ItemsFrom(j, i, depth, fmt)
            == out + Print(j.items[i], depth, fmt) + ItemGap(j, i, fmt) + ItemsFrom(j, i + 1, depth, fmt)
  {
    hide Print;
    var v, gap, rest := Print(j.items[i], depth, fmt), ItemGap(j, i, fmt), ItemsFrom(j, i + 1, depth, fmt);
    assert PrintItems(j, i, depth, fmt) == v + (gap + rest);
    Regroup(out, v, gap, rest);
  }

  lemma ArrayText(j: Json, depth: nat, fmt: bool)
    requires j.Array?
    ensures j.items != [] ==> Print(j, depth, fmt) == "[" + PrintItems(j, 0, depth + 1, fmt) + "]"
    ensures j.items == [] ==> Print(j, depth, fmt) == "[]"
  {
  }

  method TabText(n: int) returns (t: Text)
    ensures t == Tabs(n)
  {
    t := [];
    var j := 0;
    while j < n
      invariant j <= n || j == 0
      invariant t + Tabs(n - j) == Tabs(n)
    {
      assert t + ("\t" + Tabs(n - j - 1)) == t + "\t" + Tabs(n - j - 1);
      t := t + "\t";
      j := j + 1;
    }
  }

  // One turn of the composing loop of print_object.
  method JoinMember(out0: Text, name: Text, entry: Text, depth: nat, fmt: bool, more: bool, ghost m: Member)
    returns (out: Text)
    requires name == Quoted(m.key)
    ensures out == out0 + PrintMember(m, entry, depth, fmt, more)
  {
    hide Tabs, Quoted, PrintMember;
    MemberParts(out0, m, entry, depth, fmt, more);
    out := out0;
    if fmt {
      var tabs := TabText(depth);
      out := out + tabs;
    }
    out := out + name + ":" + (if fmt then "\t" else "") + entry + (if more then "," else "")
        + (if fmt then "\n" else "");
  }

  // print_object: names and values rendered one by one, then put together.
  method JoinObject(j: Json, depth0: nat, fmt: bool) returns (out: Text)
    requires Typed(j)
    requires j.Object?
    ensures out == Print(j, depth0, fmt)
    decreases j, 0
  {
    hide Tabs, Quoted;
    var n := |j.members|;
    if n == 0 {
      out := "{";
      if fmt {
        var t := TabText(depth0 - 1);
        out := out + ("\n" + t);
      }
      out := out + "}";
      EmptyObject(j, depth0, fmt);
      return;
    }
    var depth := depth0 + 1;
    var names: seq<Text>, entries: seq<Text> := [], [];
    while |entries| < n
      invariant |entries| <= n && |names| == |entries|
      invariant forall k :: 0 <= k < |entries|
                  ==> names[k] == Quoted(j.members[k].key) && entries[k] == Print(j.members[k].value, depth, fmt)
      decreases n - |entries|
    {
      var k := |entries|;
      var str := JoinedString(j.members[k].key);
      var ret := PrintJoined(j.members[k].value, depth, fmt);
      names, entries := names + [str], entries + [ret];
    }
    out := ComposeObject(j, depth0, fmt, names, entries);
  }

  // The composing half of print_object.
  method ComposeObject(j: Json, depth0: nat, fmt: bool, names: seq<Text>, entries: seq<Text>) returns (out: Text)
    requires j.Object? && j.members != [] && |names| == |entries| == |j.members|
    requires forall k :: 0 <= k < |entries|
               ==> names[k] == Quoted(j.members[k].key) && entries[k] == Print(j.members[k].value, depth0 + 1, fmt)
    ensures out == Print(j, depth0, fmt)
  {
    hide Tabs, Quoted, Print, PrintMembers, PrintMember;
    var n, depth := |j.members|, depth0 + 1;
    out := "{";
    if fmt {
      out := out + "\n";
    }
    var i := 0;
    ghost var start := out;
    while i < n
      invariant i <= n && out + PrintMembers(j, i, depth, fmt) == start + PrintMembers(j, 0, depth, fmt)
    {
      ghost var was := out;
      out := JoinMember(out, names[i], entries[i], depth, fmt, i != n - 1, j.members[i]);
      MembersStep(was, j, i, depth, fmt);
      i := i + 1;
    }
    MembersEnd(j, depth, fmt);
    assert out + [] == out;
    if fmt {
      var tabs := TabText(depth - 1);
      out := out + tabs;
    }
    out := out + "}";
    ObjectParts(j, depth0, fmt);
  }

  lemma EmptyObject(j: Json, depth: nat, fmt: bool)
    requires j.Object? && j.members == []
    ensures Print(j, depth, fmt) == "{" + Opt(fmt, "\n" + Tabs(depth - 1)) + "}"
  {
  }

  // A member appended piece by piece.
  lemma MemberParts(out: Text, m: Member, value: Text, depth: nat, fmt: bool, more: bool)
    ensures out + PrintMember(m, value, depth, fmt, more)
         == (if fmt then out + Tabs(depth) else out) + Quoted(m.key) + ":" + (if fmt then "\t" else "") + value
             + (if more then "," else "") + (if fmt then "\n" else "")
  {
    hide Tabs, Quoted;
    var a, q, b, d, n := Opt(fmt, Tabs(depth)), Quoted(m.key), Opt(fmt, "\t"), if more then "," else "", Opt(fmt, "\n");
    assert out + (a + q + ":" + b + value + d + n) == out + a + q + ":" + b + value + d + n;
    assert a == [] ==> out + a == out;
  }

  lemma MembersStep(out: Text, j: Json, i: nat, depth: nat, fmt: bool)
    requires j.Object? && i < |j.members|
    ensures var p := PrintMember(j.members[i], Print(j.members[i].value, depth, fmt), depth, fmt, i + 1 < |j.members|);
            out + PrintMembers(j, i, depth, fmt) == out + p + PrintMembers(j, i + 1, depth, fmt)
  {
    hide Print, PrintMember;
    var p := PrintMember(j.members[i], Print(j.members[i].value, depth, fmt), depth, fmt, i + 1 < |j.members|);
    Associate(out, p, PrintMembers(j, i + 1, depth, fmt));
  }

  lemma MembersEnd(j: Json, depth: nat, fmt: bool)
    requires j.Object?
    ensures PrintMembers(j, |j.members|, depth, fmt) == []
  {
  }

  lemma ObjectParts(j: Json, depth: nat, fmt: bool)
    requires j.Object? && j.members != []
    ensures Print(j, depth, fmt)
            == "{" + (if fmt then "\n" else "") + PrintMembers(j, 0, depth + 1, fmt)
            + (if fmt then Tabs(depth) else "") + "}"
  {
    hide PrintMembers, Tabs;
  }
}
