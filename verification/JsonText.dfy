// The texts cJSON prints (component/cJSON/cJSON.c, print_value and its parts), as values.
module JsonText {
  import opened JsonValues

  // ---- Texts at a position ----

  // The character at a position, the terminating zero from the end on.
  function At(text: Text, p: nat): char {
    if p < |text| then text[p] else '\0'
  }

  predicate Has(text: Text, p: nat, s: Text) {
    p + |s| <= |text| && text[p..p + |s|] == s
  }

  lemma HasJoin(text: Text, p: nat, a: Text, b: Text)
    ensures Has(text, p, a + b) <==> Has(text, p, a) && Has(text, p + |a|, b)
  {
    var n := |a| + |b|;
    if p + n <= |text| {
      var s := text[p..p + n];
      assert s[..|a|] == text[p..p + |a|] && s[|a|..] == text[p + |a|..p + n];
      if s == a + b { assert s[..|a|] == a && s[|a|..] == b; }
      if s[..|a|] == a && s[|a|..] == b { assert s == s[..|a|] + s[|a|..]; }
    }
  }

  lemma HasSlice(text: Text, p: nat, s: Text)
    requires Has(text, p, s)
    ensures p + |s| <= |text| && text[p..p + |s|] == s
  {
  }

  lemma HasChar(text: Text, p: nat, s: Text, i: nat)
    requires Has(text, p, s) && i < |s|
    ensures At(text, p + i) == s[i]
  {
    assert text[p..p + |s|][i] == text[p + i];
  }

  // ---- Numbers ----

  predicate Int32(n: int) {
    -0x8000_0000 <= n <= 0x7FFF_FFFF
  }

  function NumberText(n: int): Text {
    if n < 0 then "-" + Decimal(-n) else Decimal(n)
  }

  // ---- Strings ----

  function HexDigit(d: nat): (c: char)
    requires d < 16
  {
    if d < 10 then '0' + (d as char) else 'a' + ((d - 10) as char)
  }

  // One character of a printed string; below 32 and quotes and backslashes escaped.
  function Escaped(c: char): Text {
    if c > '\U{1f}' && c != '\"' && c != '\\' then [c]
    else if c == '\\' then "\\\\"
    else if c == '\"' then "\\\""
    else if c == '\U{8}' then "\\b"
    else if c == '\U{c}' then "\\f"
    else if c == '\n' then "\\n"
    else if c == '\r' then "\\r"
    else if c == '\t' then "\\t"
    else "\\u00" + [HexDigit(c as nat / 16), HexDigit(c as nat % 16)]
  }

  function EscapedText(s: Text): Text {
    if s == [] then [] else Escaped(s[0]) + EscapedText(s[1..])
  }

  function Quoted(s: Text): Text {
    "\"" + EscapedText(s) + "\""
  }

  // ---- Values ----

  function Tabs(n: int): Text {
    if n <= 0 then [] else "\t" + Tabs(n - 1)
  }

  function Opt(fmt: bool, s: Text): Text {
    if fmt then s else []
  }

  function Print(j: Json, depth: nat, fmt: bool): Text
    decreases j, 1
  {
    match j
    case Null => "null"
    case Bool(b) => if b then "true" else "false"
    case Number(n) => NumberText(n)
    case String(s) => Quoted(s)
    case Array(items) => if items == [] then "[]" else "[" + PrintItems(j, 0, depth + 1, fmt) + "]"
    case Object(ms) =>
      if ms == [] then "{" + Opt(fmt, "\n" + Tabs(depth - 1)) + "}"
      else "{" + Opt(fmt, "\n") + PrintMembers(j, 0, depth + 1, fmt) + Opt(fmt, Tabs(depth)) + "}"
    case Invalid => ""
  }

  // The elements from position i on, with what separates them.
  function PrintItems(j: Json, i: nat, depth: nat, fmt: bool): Text
    requires j.Array? && i < |j.items|
    decreases j, 0, |j.items| - i
  {
    Print(j.items[i], depth, fmt)
        + if i + 1 < |j.items| then "," + Opt(fmt, " ") + PrintItems(j, i + 1, depth, fmt) else []
  }

  function PrintMember(m: Member, value: Text, depth: nat, fmt: bool, more: bool): Text {
    Opt(fmt, Tabs(depth)) + Quoted(m.key) + ":" + Opt(fmt, "\t") + value + (if more then "," else "") + Opt(fmt, "\n")
  }

  // The members from position i on.
  function PrintMembers(j: Json, i: nat, depth: nat, fmt: bool): Text
    requires j.Object? && i <= |j.members|
    decreases j, 0, |j.members| - i
  {
    if i == |j.members| then [] else
      PrintMember(j.members[i], Print(j.members[i].value, depth, fmt), depth, fmt, i + 1 < |j.members|)
        + PrintMembers(j, i + 1, depth, fmt)
  }

  // Bytes other than zero.
  predicate ByteText(s: Text) {
    forall i :: 0 <= i < |s| ==> '\0' < s[i] <= '\U{ff}'
  }

  // The trees there is a text for: nothing invalid in them.
  ghost predicate Typed(j: Json) {
    match j
    case Array(items) => forall i :: 0 <= i < |items| ==> Typed(items[i])
    case Object(ms) => forall i :: 0 <= i < |ms| ==> Typed(ms[i].value)
    case _ => !j.Invalid?
  }

  // The trees the round trip is about: 32-bit integers and zero-free byte strings.
  ghost predicate Printable(j: Json) {
    match j
    case Number(n) => Int32(n)
    case String(s) => ByteText(s)
    case Array(items) => forall i :: 0 <= i < |items| ==> Printable(items[i])
    case Object(ms) => forall i :: 0 <= i < |ms| ==> ByteText(ms[i].key) && Printable(ms[i].value)
    case _ => !j.Invalid?
  }

  // The parts of a printable tree are printable.
  lemma PrintableItem(j: Json, i: nat)
    requires Printable(j)
    ensures j.Array? && i < |j.items| ==> Printable(j.items[i])
    ensures j.Object? && i < |j.members| ==> Printable(j.members[i].value) && ByteText(j.members[i].key)
  {
  }
}
