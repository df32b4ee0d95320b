// Minifying in place (component/cJSON/cJSON.c, cJSON_Minify): what is left of a formatted
// text is the unformatted one.
module JsonMinify {
  import opened JsonValues
  import opened JsonText
  import opened JsonPrint
  import opened Options
  import opened Sequences

  predicate IsBlank(c: char) {
    c == ' ' || c == '\t' || c == '\r' || c == '\n'
  }

  // ---- What is left of a text ----

  // Behind the closing quote of a literal one is inside of.
  function LiteralEnd(text: Text, p: nat): (r: Option<nat>)
    ensures r.Some? ==> p < r.value <= |text|
    decreases |text| - p
  {
    if p >= |text| then None
    else if text[p] == '\"' then Some(p + 1)
    else if text[p] == '\\' then LiteralEnd(text, p + 2)
    else LiteralEnd(text, p + 1)
  }

  // The end of a line comment: the newline, or the end of the text.
  function LineEnd(text: Text, p: nat): (q: nat)
    requires p <= |text|
    ensures p <= q <= |text|
    decreases |text| - p
  {
    if p < |text| && text[p] != '\n' then LineEnd(text, p + 1) else p
  }

  // Behind a block comment.
  function BlockEnd(text: Text, p: nat): (r: Option<nat>)
    ensures r.Some? ==> p < r.value <= |text|
    decreases |text| - p
  {
    if p + 1 >= |text| then None
    else if text[p] == '*' && text[p + 1] == '/' then Some(p + 2)
    else BlockEnd(text, p + 1)
  }

  // The minified text from a position on; none where an unclosed literal or comment
  // would lead past the end.
  function Minified(text: Text, p: nat): Option<Text>
    requires p <= |text|
    decreases |text| - p
  {
    if p == |text| then Some([])
    else if IsBlank(text[p]) then Minified(text, p + 1)
    else if text[p] == '/' && At(text, p + 1) == '/' then
      var q := LineEnd(text, p);
      if q > p then Minified(text, q) else None
    else if text[p] == '/' && At(text, p + 1) == '*' then
      var q := BlockEnd(text, p);
      if q.Some? then Minified(text, q.value) else None
    else if text[p] == '\"' then
      var q := LiteralEnd(text, p + 1);
      if q.Some? then Before(text[p..q.value], Minified(text, q.value)) else None
    else Before([text[p]], Minified(text, p + 1))
  }

  function Before(s: Text, r: Option<Text>): Option<Text> {
    if r.Some? then Some(s + r.value) else None
  }

  // ---- Printed texts ----

  // A stretch of the text leaves `out`, whatever follows.
  ghost predicate Leaves(text: Text, p: nat, n: nat, out: Text) {
    p + n <= |text| && Minified(text, p) == Before(out, Minified(text, p + n))
  }

  lemma LeavesNothing(text: Text, p: nat)
    requires p <= |text|
    ensures Leaves(text, p, 0, [])
  {
    if Minified(text, p).Some? { assert [] + Minified(text, p).value == Minified(text, p).value; }
  }

  lemma LeavesJoin(text: Text, p: nat, a: nat, b: nat, x: Text, y: Text)
    requires Leaves(text, p, a, x) && Leaves(text, p + a, b, y)
    ensures Leaves(text, p, a + b, x + y)
  {
    hide Minified;
    var r := Minified(text, p + a + b);
    if r.Some? { assert x + (y + r.value) == (x + y) + r.value; }
  }

  lemma {:induction false} LeavesBlank(text: Text, p: nat, s: Text)
    requires Has(text, p, s) && forall i :: 0 <= i < |s| ==> IsBlank(s[i])
    ensures Leaves(text, p, |s|, [])
    decreases |s|
  {
    LeavesNothing(text, p);
    if s != [] {
      HasChar(text, p, s, 0);
      assert s == [s[0]] + s[1..];
      HasJoin(text, p, [s[0]], s[1..]);
      LeavesBlank(text, p + 1, s[1..]);
    }
  }

  predicate PlainChar(c: char) {
    !IsBlank(c) && c != '/' && c != '\"' && c != '\0'
  }

  lemma {:induction false} LeavesPlain(text: Text, p: nat, s: Text)
    requires Has(text, p, s) && forall i :: 0 <= i < |s| ==> PlainChar(s[i])
    ensures Leaves(text, p, |s|, s)
    decreases |s|
  {
    LeavesNothing(text, p);
    if s != [] {
      HasChar(text, p, s, 0);
      assert s == [s[0]] + s[1..];
      HasJoin(text, p, [s[0]], s[1..]);
      LeavesPlain(text, p + 1, s[1..]);
      assert Leaves(text, p, 1, [s[0]]);
      LeavesJoin(text, p, 1, |s| - 1, [s[0]], s[1..]);
    }
  }

  // An escaped character does not end a literal.
  lemma InsideLiteral(text: Text, p: nat, c: char)
    requires Has(text, p, Escaped(c))
    ensures LiteralEnd(text, p) == LiteralEnd(text, p + |Escaped(c)|)
  {
    hide Has;
    HasSlice(text, p, Escaped(c));
    HasChar(text, p, Escaped(c), 0);
    if |Escaped(c)| == 2 {
      HasChar(text, p, Escaped(c), 1);
    } else if |Escaped(c)| == 6 {
      HasChar(text, p, Escaped(c), 2);
      HasChar(text, p, Escaped(c), 3);
      HasChar(text, p, Escaped(c), 4);
      HasChar(text, p, Escaped(c), 5);
      assert LiteralEnd(text, p + 2) == LiteralEnd(text, p + 3);
      assert LiteralEnd(text, p + 4) == LiteralEnd(text, p + 5);
    }
  }

  lemma {:induction false} LiteralCloses(text: Text, p: nat, s: Text)
    requires Has(text, p, EscapedText(s) + "\"")
    ensures LiteralEnd(text, p) == Some(p + |EscapedText(s)| + 1)
    decreases |s|
  {
    hide Has, Escaped;
    if s == [] {
      HasSlice(text, p, EscapedText(s) + "\"");
      HasChar(text, p, EscapedText(s) + "\"", 0);
    } else {
      var e := Escaped(s[0]);
      assert EscapedText(s) + "\"" == e + (EscapedText(s[1..]) + "\"");
      HasJoin(text, p, e, EscapedText(s[1..]) + "\"");
      InsideLiteral(text, p, s[0]);
      LiteralCloses(text, p + |e|, s[1..]);
    }
  }

  lemma LeavesQuoted(text: Text, p: nat, s: Text)
    requires Has(text, p, Quoted(s))
    ensures Leaves(text, p, |Quoted(s)|, Quoted(s))
  {
    hide Has, LiteralEnd;
    var body := EscapedText(s) + "\"";
    assert Quoted(s) == "\"" + body;
    HasSlice(text, p, Quoted(s));
    HasChar(text, p, Quoted(s), 0);
    HasJoin(text, p, "\"", body);
    LiteralCloses(text, p + 1, s);
  }

  // A printed tree minifies to the tree printed without format.
  lemma {:induction false} LeavesPrinted(text: Text, p: nat, j: Json, depth: nat)
    requires Has(text, p, Print(j, depth, true))
    ensures Leaves(text, p, |Print(j, depth, true)|, Print(j, depth, false))
    decreases j, 1
  {
    hide Has, Minified, PrintItems, PrintMembers, Quoted, Tabs, NumberText, Leaves;
    var s := Print(j, depth, true);
    match j
    case Number(n) =>
      NumberPlain(n);
      LeavesPlain(text, p, s);
    case String(t) => LeavesQuoted(text, p, t);
    case Array(items) =>
      if items == [] {
        LeavesPlain(text, p, s);
      } else {
        var t := PrintItems(j, 0, depth + 1, true);
        HasJoin(text, p, "[" + t, "]");
        HasJoin(text, p, "[", t);
        LeavesPlain(text, p, "[");
        LeavesItems(text, p + 1, j, 0, depth + 1);
        LeavesPlain(text, p + 1 + |t|, "]");
        LeavesJoin(text, p, 1, |t|, "[", PrintItems(j, 0, depth + 1, false));
        LeavesJoin(text, p, 1 + |t|, 1, "[" + PrintItems(j, 0, depth + 1, false), "]");
      }
    case Object(ms) =>
      if ms == [] {
        var t := "\n" + Tabs(depth - 1);
        TabsAreBlank(depth - 1);
        assert "{" + t + "" + "}" == s;
        HasSlice(text, p, s);
        LeavesNothing(text, p + 1 + |t|);
        LeavesBraces(text, p, t, "", "");
        assert "{" + "" + "" + "}" == Print(j, depth, false);
      } else {
        LeavesObject(text, p, j, depth);
      }
    case _ => LeavesPlain(text, p, s);
  }

  lemma NumberPlain(n: int)
    ensures forall i :: 0 <= i < |NumberText(n)| ==> PlainChar(NumberText(n)[i])
  {
  }

  lemma {:induction false} TabsAreBlank(n: int)
    ensures forall i :: 0 <= i < |Tabs(n)| ==> IsBlank(Tabs(n)[i])
  {
    if n > 0 { TabsAreBlank(n - 1); }
  }

  // Braces around blanks and a middle part that has been dealt with.
  lemma LeavesBraces(text: Text, p: nat, blanks: Text, middle: Text, out: Text)
    requires Has(text, p, "{" + blanks + middle + "}") && (forall i :: 0 <= i < |blanks| ==> IsBlank(blanks[i]))
    requires Leaves(text, p + 1 + |blanks|, |middle|, out)
    ensures Leaves(text, p, |"{" + blanks + middle + "}"|, "{" + "" + out + "}")
  {
    hide Has, Minified, Leaves;
    HasJoin(text, p, "{" + blanks + middle, "}");
    HasJoin(text, p, "{" + blanks, middle);
    HasJoin(text, p, "{", blanks);
    LeavesPlain(text, p, "{");
    LeavesBlank(text, p + 1, blanks);
    LeavesJoin(text, p, 1, |blanks|, "{", "");
    var q := p + 1 + |blanks|;
    LeavesJoin(text, p, 1 + |blanks|, |middle|, "{" + "", out);
    LeavesPlain(text, q + |middle|, "}");
    LeavesJoin(text, p, 1 + |blanks| + |middle|, 1, "{" + "" + out, "}");
  }

  lemma {:induction false} LeavesItems(text: Text, p: nat, j: Json, i: nat, depth: nat)
    requires j.Array? && i < |j.items| && Has(text, p, PrintItems(j, i, depth, true))
    ensures Leaves(text, p, |PrintItems(j, i, depth, true)|, PrintItems(j, i, depth, false))
    decreases j, 0, |j.items| - i
  {
    hide Has, Minified, Print, Leaves;
    var v, w := Print(j.items[i], depth, true), Print(j.items[i], depth, false);
    if i + 1 < |j.items| {
      hide PrintItems;
      ItemsTail(j, i, depth);
      var rest := PrintItems(j, i + 1, depth, true);
      HasJoin(text, p, v + ", ", rest);
      HasJoin(text, p, v, ", ");
      LeavesPrinted(text, p, j.items[i], depth);
      assert ", " == "," + " ";
      HasJoin(text, p + |v|, ",", " ");
      LeavesPlain(text, p + |v|, ",");
      LeavesBlank(text, p + |v| + 1, " ");
      LeavesJoin(text, p + |v|, 1, 1, ",", "");
      LeavesJoin(text, p, |v|, 2, w, "," + "");
      LeavesItems(text, p + |v| + 2, j, i + 1, depth);
      LeavesJoin(text, p, |v| + 2, |rest|, w + ("," + ""), PrintItems(j, i + 1, depth, false));
    } else {
      assert PrintItems(j, i, depth, true) == v && PrintItems(j, i, depth, false) == w;
      LeavesPrinted(text, p, j.items[i], depth);
    }
  }

  lemma ItemsTail(j: Json, i: nat, depth: nat)
    requires j.Array? && i + 1 < |j.items|
    ensures PrintItems(j, i, depth, true) == Print(j.items[i], depth, true) + ", " + PrintItems(j, i + 1, depth, true)
    ensures PrintItems(j, i, depth, false)
            == Print(j.items[i], depth, false) + ("," + "") + PrintItems(j, i + 1, depth, false)
  {
    hide Print;
    var v, w := Print(j.items[i], depth, true), Print(j.items[i], depth, false);
    Associate(v, ", ", PrintItems(j, i + 1, depth, true));
    Associate(w, ",", PrintItems(j, i + 1, depth, false));
    assert PrintItems(j, i, depth, true) == v + ("," + " " + PrintItems(j, i + 1, depth, true));
    assert "," + " " == ", " && "," + "" == ",";
  }

  lemma {:induction false} LeavesObject(text: Text, p: nat, j: Json, depth: nat)
    requires j.Object? && j.members != [] && Has(text, p, Print(j, depth, true))
    ensures Leaves(text, p, |Print(j, depth, true)|, Print(j, depth, false))
    decreases j, 0, |j.members| + 1
  {
    hide Has, Minified, Print, PrintMembers, Tabs, Leaves;
    ObjectParts(j, depth, true);
    ObjectParts(j, depth, false);
    var m, o, tabs := PrintMembers(j, 0, depth + 1, true), PrintMembers(j, 0, depth + 1, false), Tabs(depth);
    TabsAreBlank(depth);
    assert Print(j, depth, true) == "{" + "\n" + (m + tabs) + "}";
    HasJoin(text, p, "{" + "\n" + (m + tabs), "}");
    HasJoin(text, p, "{" + "\n", m + tabs);
    HasJoin(text, p + 2, m, tabs);
    LeavesMembers(text, p + 2, j, 0, depth + 1);
    LeavesBlank(text, p + 2 + |m|, tabs);
    LeavesJoin(text, p + 2, |m|, |tabs|, o, "");
    assert o + "" == o;
    LeavesBraces(text, p, "\n", m + tabs, o);
    assert "{" + "" + o + "}" == "{" + "" + o + "" + "}";
  }

  lemma {:induction false} LeavesMembers(text: Text, p: nat, j: Json, i: nat, depth: nat)
    requires j.Object? && i <= |j.members| && Has(text, p, PrintMembers(j, i, depth, true))
    ensures Leaves(text, p, |PrintMembers(j, i, depth, true)|, PrintMembers(j, i, depth, false))
    decreases j, 0, |j.members| - i
  {
    hide Has, Minified, Print, PrintMember, Leaves;
    HasSlice(text, p, PrintMembers(j, i, depth, true));
    if i == |j.members| {
      LeavesNothing(text, p);
    } else {
      var m := j.members[i];
      var v, w := Print(m.value, depth, true), Print(m.value, depth, false);
      var more := i + 1 < |j.members|;
      var a, b := PrintMember(m, v, depth, true, more), PrintMember(m, w, depth, false, more);
      var rest := PrintMembers(j, i + 1, depth, true);
      assert PrintMembers(j, i, depth, true) == a + rest
             && PrintMembers(j, i, depth, false) == b + PrintMembers(j, i + 1, depth, false);
      HasJoin(text, p, a, rest);
      MemberPieces(m, v, w, depth, more);
      var q := p + |Tabs(depth)| + |Quoted(m.key)| + 2;
      var x, y := Tabs(depth) + Quoted(m.key) + ":\t", (if more then "," else "") + "\n";
      HasJoin(text, p, x, v + y);
      HasJoin(text, q, v, y);
      LeavesPrinted(text, q, m.value, depth);
      LeavesHead(text, p, m.key, depth);
      LeavesTail(text, q + |v|, more);
      LeavesJoin(text, p, |x|, |v|, Quoted(m.key) + ":", w);
      LeavesJoin(text, p, |x| + |v|, |y|, Quoted(m.key) + ":" + w, if more then "," else "");
      LeavesMembers(text, p + |a|, j, i + 1, depth);
      LeavesJoin(text, p, |a|, |rest|, b, PrintMembers(j, i + 1, depth, false));
    }
  }

  lemma MemberPieces(m: Member, v: Text, w: Text, depth: nat, more: bool)
    ensures PrintMember(m, v, depth, true, more)
            == (Tabs(depth) + Quoted(m.key) + ":\t") + (v + ((if more then "," else "") + "\n"))
    ensures PrintMember(m, w, depth, false, more) == Quoted(m.key) + ":" + w + (if more then "," else "")
  {
    hide Tabs, Quoted;
    var t, k, d := Tabs(depth), Quoted(m.key), if more then "," else "";
    assert t + k + ":" + "\t" == t + k + ":\t";
    Regroup(t + k + ":\t", v, d, "\n");
    assert [] + k + ":" + [] + w + d + [] == k + ":" + w + d;
  }

  lemma LeavesHead(text: Text, p: nat, key: Text, depth: nat)
    requires Has(text, p, Tabs(depth) + Quoted(key) + ":\t")
    ensures Leaves(text, p, |Tabs(depth) + Quoted(key) + ":\t"|, Quoted(key) + ":")
  {
    hide Has, Minified, Tabs, Quoted, Leaves;
    var t, k := Tabs(depth), Quoted(key);
    TabsAreBlank(depth);
    assert t + k + ":\t" == t + k + ":" + "\t";
    HasJoin(text, p, t + k + ":", "\t");
    HasJoin(text, p, t + k, ":");
    HasJoin(text, p, t, k);
    LeavesBlank(text, p, t);
    LeavesQuoted(text, p + |t|, key);
    LeavesPlain(text, p + |t| + |k|, ":");
    LeavesBlank(text, p + |t| + |k| + 1, "\t");
    LeavesJoin(text, p, |t|, |k|, "", k);
    LeavesJoin(text, p, |t| + |k|, 1, "" + k, ":");
    LeavesJoin(text, p, |t| + |k| + 1, 1, "" + k + ":", "");
    assert "" + k + ":" + "" == k + ":";
  }

  lemma LeavesTail(text: Text, p: nat, more: bool)
    requires Has(text, p, (if more then "," else "") + "\n")
    ensures Leaves(text, p, |(if more then "," else "") + "\n"|, if more then "," else "")
  {
    hide Has, Minified, Leaves;
    var d := if more then "," else "";
    HasJoin(text, p, d, "\n");
    LeavesPlain(text, p, d);
    LeavesBlank(text, p + |d|, "\n");
    LeavesJoin(text, p, |d|, 1, d, "");
    assert d + "" == d;
  }

  // Minifying what cJSON_Print writes gives what cJSON_PrintUnformatted writes, whatever
  // lies behind it in memory.
  lemma MinifyPrint(j: Json, mem: Text)
    ensures Minified(Print(j, 0, true), 0) == Some(Print(j, 0, false))
    ensures BeginsWith(mem, Print(j, 0, true)) ==> Swept(mem, 0) == Some(Print(j, 0, false))
  {
    hide Print, Minified, Swept;
    var text := Print(j, 0, true);
    assert text[0..0 + |text|] == text;
    LeavesPrinted(text, 0, j, 0);
    EndsMinified(text);
    assert Print(j, 0, false) + [] == Print(j, 0, false);
    if BeginsWith(mem, text) { ReadsInside(mem, text, 0); }
  }

  lemma EndsMinified(text: Text)
    ensures Minified(text, |text|) == Some([])
  {
  }

  // ---- What is left of memory ----

  // The end of a line comment: the newline, or the terminator.
  function LineStop(mem: Text, p: nat): (r: Option<nat>)
    ensures r.Some? ==> p <= r.value < |mem| && (mem[r.value] == '\0' || mem[r.value] == '\n')
    ensures r.Some? && mem[p] != '\0' && mem[p] != '\n' ==> p < r.value
    decreases |mem| - p
  {
    if p >= |mem| then None
    else if mem[p] == '\0' || mem[p] == '\n' then Some(p)
    else LineStop(mem, p + 1)
  }

  // Behind a block comment: two further from its closing star, or from the terminator.
  function BlockStop(mem: Text, p: nat): (r: Option<nat>)
    ensures r.Some? ==> p + 2 <= r.value
    decreases |mem| - p
  {
    if p >= |mem| || (mem[p] == '*' && p + 1 >= |mem|) then None
    else if mem[p] == '\0' || (mem[p] == '*' && mem[p + 1] == '/') then Some(p + 2)
    else BlockStop(mem, p + 1)
  }

  // Behind a literal one is inside of: one further from its closing quote, or from the
  // terminator.
  function LiteralStop(mem: Text, p: nat): (r: Option<nat>)
    ensures r.Some? ==> p < r.value <= |mem|
    decreases |mem| - p
  {
    if p >= |mem| then None
    else if mem[p] == '\0' || mem[p] == '\"' then Some(p + 1)
    else if mem[p] == '\\' then LiteralStop(mem, p + 2)
    else LiteralStop(mem, p + 1)
  }

  // What is kept of memory from a position on; none where the reading leaves it. What is
  // written lies behind the reading position and is not read again.
  function Swept(mem: Text, p: nat): Option<Text>
    decreases |mem| - p
  {
    if p >= |mem| then None
    else if mem[p] == '\0' then Some([])
    else if IsBlank(mem[p]) then Swept(mem, p + 1)
    else if mem[p] == '/' && p + 1 >= |mem| then None
    else if mem[p] == '/' && mem[p + 1] == '/' then
      var q := LineStop(mem, p);
      if q.Some? then Swept(mem, q.value) else None
    else if mem[p] == '/' && mem[p + 1] == '*' then
      var q := BlockStop(mem, p);
      if q.Some? then Swept(mem, q.value) else None
    else if mem[p] == '\"' then
      var q := LiteralStop(mem, p + 1);
      if q.Some? then Before(mem[p..q.value], Swept(mem, q.value)) else None
    else Before([mem[p]], Swept(mem, p + 1))
  }

  // Memory that begins with this text, terminated.
  ghost predicate BeginsWith(mem: Text, text: Text) {
    && |text| < |mem| && mem[|text|] == '\0'
    && forall i :: 0 <= i < |text| ==> mem[i] == text[i] && text[i] != '\0'
  }

  lemma {:induction false} LineStops(mem: Text, text: Text, p: nat)
    requires BeginsWith(mem, text) && p <= |text|
    ensures LineStop(mem, p) == Some(LineEnd(text, p))
    decreases |text| - p
  {
    if p < |text| && text[p] != '\n' { LineStops(mem, text, p + 1); }
  }

  lemma {:induction false} BlockStops(mem: Text, text: Text, p: nat)
    requires BeginsWith(mem, text) && p <= |text|
    ensures BlockStop(mem, p) == if BlockEnd(text, p).Some? then BlockEnd(text, p) else Some(|text| + 2)
    decreases |text| - p
  {
    if p < |text| && !(text[p] == '*' && p + 1 < |text| && text[p + 1] == '/') { BlockStops(mem, text, p + 1); }
  }

  lemma {:induction false} LiteralStops(mem: Text, text: Text, p: nat)
    requires BeginsWith(mem, text) && p <= |text| + 1
    ensures LiteralEnd(text, p).Some? ==> LiteralStop(mem, p) == LiteralEnd(text, p)
    ensures LiteralEnd(text, p).None? ==> LiteralStop(mem, p).None? || LiteralStop(mem, p).value > |text|
    decreases |text| + 1 - p
  {
    if p < |text| {
      if text[p] == '\\' { LiteralStops(mem, text, p + 2); } else if text[p] != '\"' { LiteralStops(mem, text, p + 1); }
    }
  }

  // Of memory that begins with a text, what is left of the text is kept; if nothing lies
  // behind the terminator, the reading stays inside if and only if the text does not end
  // inside a literal or a block comment.
  lemma {:induction false} ReadsInside(mem: Text, text: Text, p: nat)
    requires BeginsWith(mem, text) && p <= |text|
    ensures Minified(text, p).Some? ==> Swept(mem, p) == Minified(text, p)
    ensures |mem| == |text| + 1 ==> Swept(mem, p) == Minified(text, p)
    decreases |text| - p
  {
    hide LineEnd, BlockEnd, LiteralEnd, LineStop, BlockStop, LiteralStop;
    if p < |text| {
      if text[p] == '/' && At(text, p + 1) == '/' {
        LineStarts(text, p);
        LineStops(mem, text, p);
        ReadsInside(mem, text, LineEnd(text, p));
      } else if text[p] == '/' && At(text, p + 1) == '*' {
        BlockStops(mem, text, p);
        if BlockEnd(text, p).Some? { ReadsInside(mem, text, BlockEnd(text, p).value); }
      } else if text[p] == '\"' {
        LiteralStops(mem, text, p + 1);
        var q := LiteralEnd(text, p + 1);
        if q.Some? {
          assert mem[p..q.value] == text[p..q.value];
          ReadsInside(mem, text, q.value);
        }
      } else {
        ReadsInside(mem, text, p + 1);
      }
    }
  }

  lemma LineStarts(text: Text, p: nat)
    requires p < |text| && text[p] == '/'
    ensures LineEnd(text, p) > p
  {
  }

  // A lone quote has the terminator copied and the reading go on behind it.
  lemma QuoteReadsOn(c: char)
    requires c != '\0' && c != '\"' && !IsBlank(c) && c != '/'
    ensures Swept("\"\0", 0) == None && Swept("\"\0" + [c, '\0'], 0) == Some("\"\0" + [c])
  {
    var mem := "\"\0" + [c, '\0'];
    assert LiteralStop("\"\0", 1) == Some(2);
    assert LiteralStop(mem, 1) == Some(2) && mem[0..2] == "\"\0";
    assert Swept(mem, 3) == Some([]);
    assert [c] + [] == [c];
  }

  // ---- In place ----

  // From an index on, the array still holds what it held.
  ghost predicate Rest(a: array<char>, json: nat, mem: Text)
    reads a
  {
    a.Length == |mem| && forall k :: json <= k < |mem| ==> a[k] == mem[k]
  }

  // In front, the array holds what has been kept.
  ghost predicate Kept(a: array<char>, out: Text)
    reads a
  {
    |out| <= a.Length && a[..|out|] == out
  }

  // Copies one character to the front.
  method Copy(a: array<char>, into: nat, json: nat, ghost mem: Text, ghost out: Text)
    requires Rest(a, json, mem) && Kept(a, out) && into == |out| <= json < |mem|
    modifies a
    ensures Rest(a, json + 1, mem) && Kept(a, out + [mem[json]])
  {
    a[into] := a[json];
    assert a[..into + 1] == a[..into] + [a[into]];
  }

  // Past a line comment.
  method SkipLine(a: array<char>, json: nat, ghost mem: Text) returns (q: nat)
    requires Rest(a, json, mem) && LineStop(mem, json).Some?
    ensures Some(q) == LineStop(mem, json)
  {
    q := json;
    while a[q] != '\0' && a[q] != '\n'
      invariant json <= q < |mem| && LineStop(mem, json) == LineStop(mem, q)
      decreases |mem| - q
    {
      q := q + 1;
    }
  }

  // Past a block comment, or past the terminator.
  method SkipBlock(a: array<char>, json: nat, ghost mem: Text) returns (q: nat)
    requires Rest(a, json, mem) && BlockStop(mem, json).Some?
    ensures Some(q) == BlockStop(mem, json)
  {
    q := json;
    while a[q] != '\0' && !(a[q] == '*' && a[q + 1] == '/')
      invariant json <= q < |mem| && (a[q] == '*' ==> q + 1 < |mem|) && BlockStop(mem, json) == BlockStop(mem, q)
      decreases |mem| - q
    {
      q := q + 1;
    }
    q := q + 2;
  }

  // Copies a literal, escapes and all.
  method CopyLiteral(a: array<char>, into0: nat, json0: nat, ghost mem: Text, ghost out: Text)
    returns (into: nat, json: nat)
    requires Rest(a, json0, mem) && Kept(a, out) && into0 == |out| <= json0 < |mem|
    requires LiteralStop(mem, json0 + 1).Some?
    modifies a
    ensures Some(json) == LiteralStop(mem, json0 + 1) && json0 < json <= |mem|
    ensures Rest(a, json, mem) && Kept(a, out + mem[json0..json]) && into == |out| + (json - json0)
  {
    hide LiteralStop, Rest, Kept;
    Copy(a, into0, json0, mem, out);
    into, json := into0 + 1, json0 + 1;
    assert mem[json0..json] == [mem[json0]];
    LiteralGoesOn(mem, json);
    while Peek(a, json, mem) != '\0' && Peek(a, json, mem) != '\"'
      invariant json0 < json < |mem| && into == |out| + (json - json0)
      invariant LiteralStop(mem, json).Some? && LiteralStop(mem, json) == LiteralStop(mem, json0 + 1)
      invariant Rest(a, json, mem) && Kept(a, out + mem[json0..json])
      decreases |mem| - json
    {
      LiteralGoesOn(mem, json);
      if Peek(a, json, mem) == '\\' {
        into, json := CopyNext(a, into, json, mem, out, json0);
      }
      into, json := CopyNext(a, into, json, mem, out, json0);
      LiteralGoesOn(mem, json);
    }
    LiteralGoesOn(mem, json);
    into, json := CopyNext(a, into, json, mem, out, json0);
  }

  // The character at the reading position.
  function Peek(a: array<char>, json: nat, ghost mem: Text): (c: char)
    requires Rest(a, json, mem) && json < |mem|
    reads a
    ensures c == mem[json]
  {
    a[json]
  }

  method CopyNext(a: array<char>, into0: nat, json0: nat, ghost mem: Text, ghost out: Text, ghost from: nat)
    returns (into: nat, json: nat)
    requires from <= json0 < |mem| && Rest(a, json0, mem) && Kept(a, out + mem[from..json0])
    requires into0 == |out| + (json0 - from) <= json0
    modifies a
    ensures into == into0 + 1 && json == json0 + 1 && Rest(a, json, mem) && Kept(a, out + mem[from..json])
  {
    hide Rest, Kept;
    Copy(a, into0, json0, mem, out + mem[from..json0]);
    Longer(out, mem, from, json0);
    into, json := into0 + 1, json0 + 1;
  }

  // Inside a literal that stops there is something ahead, also behind a backslash.
  lemma LiteralGoesOn(mem: Text, p: nat)
    requires LiteralStop(mem, p).Some?
    ensures p < |mem| && (mem[p] == '\\' ==> p + 1 < |mem|)
    ensures mem[p] == '\0' || mem[p] == '\"' ==> LiteralStop(mem, p) == Some(p + 1)
    ensures mem[p] != '\0' && mem[p] != '\"'
            ==> LiteralStop(mem, p) == LiteralStop(mem, if mem[p] == '\\' then p + 2 else p + 1)
  {
  }

  lemma Longer(out: Text, mem: Text, a: nat, b: nat)
    requires a <= b < |mem|
    ensures out + mem[a..b] + [mem[b]] == out + mem[a..b + 1]
  {
  }

  lemma BeforeJoin(a: Text, b: Text, r: Option<Text>)
    ensures Before(a, Before(b, r)) == Before(a + b, r)
    ensures Before([], r) == r
  {
    if r.Some? { assert a + (b + r.value) == a + b + r.value && [] + r.value == r.value; }
  }

  // cJSON_Minify: what is kept of memory is moved to its front and terminated, whenever the
  // reading stays inside.
  method Minify(a: array<char>)
    requires Swept(a[..], 0).Some?
    modifies a
    ensures Stored(a, 0, Swept(old(a[..]), 0).value)
  {
    hide LineStop, BlockStop, LiteralStop, Rest, Kept;
    ghost var mem := a[..];
    var json, into := 0, 0;
    ghost var out: Text := [];
    StartMinify(a, mem);
    BeforeJoin([], [], Swept(mem, 0));
    SweepGoesOn(mem, 0);
    while Peek(a, json, mem) != '\0'
      invariant into == |out| <= json < |mem| && Rest(a, json, mem) && Kept(a, out)
      invariant Swept(mem, json).Some? && Swept(mem, 0) == Before(out, Swept(mem, json))
      decreases |mem| - json
    {
      var c := Peek(a, json, mem);
      SweepGoesOn(mem, json);
      if c == ' ' || c == '\t' || c == '\r' || c == '\n' {
        Later(a, json, json + 1, mem);
        json := json + 1;
      } else if c == '/' && NextIs(a, json, mem, '/') {
        var q := SkipLine(a, json, mem);
        Later(a, json, q, mem);
        json := q;
      } else if c == '/' && NextIs(a, json, mem, '*') {
        var q := SkipBlock(a, json, mem);
        SweepGoesOn(mem, q);
        Later(a, json, q, mem);
        json := q;
      } else if c == '\"' {
        ghost var from := json;
        into, json := CopyLiteral(a, into, json, mem, out);
        BeforeJoin(out, mem[from..json], Swept(mem, json));
        out := out + mem[from..json];
      } else {
        Copy(a, into, json, mem, out);
        BeforeJoin(out, [mem[json]], Swept(mem, json + 1));
        out := out + [mem[json]];
        into, json := into + 1, json + 1;
      }
      SweepGoesOn(mem, json);
    }
    Finish(a, json, out, mem);
    a[into] := '\0';
    assert out + [] == out;
    assert a[0..|out|] == out;
  }

  predicate NextIs(a: array<char>, json: nat, ghost mem: Text, c: char)
    requires Rest(a, json, mem) && json + 1 < |mem|
    reads a
    ensures NextIs(a, json, mem, c) <==> mem[json + 1] == c
  {
    a[json + 1] == c
  }

  // Where the reading stays inside, there is something at its position, and behind a slash.
  lemma SweepGoesOn(mem: Text, p: nat)
    requires Swept(mem, p).Some?
    ensures p < |mem| && (mem[p] == '/' ==> p + 1 < |mem|)
  {
  }

  lemma Later(a: array<char>, json: nat, q: nat, mem: Text)
    requires Rest(a, json, mem) && json <= q <= |mem|
    ensures Rest(a, q, mem)
  {
  }

  lemma StartMinify(a: array<char>, mem: Text)
    requires a[..] == mem
    ensures Kept(a, []) && Rest(a, 0, mem)
  {
  }

  lemma Finish(a: array<char>, json: nat, out: Text, mem: Text)
    requires Rest(a, json, mem) && Kept(a, out) && |out| <= json < |mem|
    ensures a[..|out|] == out && |out| < a.Length
  {
  }
}
