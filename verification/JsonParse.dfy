// The JSON parser (component/cJSON/cJSON.c, cJSON_ParseWithOpts, parse_value and its
// parts): as functions of the text, as the loops of the source, and its inverse relation
// to the printer.
module JsonParse {
  import opened JsonValues
  import opened JsonText

  // A value and where its text ends; a syntax error; or what the model leaves open: a
  // number that is no 32-bit integer, an escape that reads past the end of the text.
  datatype Outcome = Parsed(j: Json, end: nat) | Failed | Undefined

  predicate IsDigit(c: char) {
    '0' <= c <= '9'
  }

  // skip: past blanks and control characters.
  function Skip(text: Text, p: nat): (q: nat)
    requires p <= |text|
    ensures p <= q <= |text|
    decreases |text| - p
  {
    if p < |text| && '\0' < text[p] <= ' ' then Skip(text, p + 1) else p
  }

  // ---- Numbers ----

  function DigitsEnd(text: Text, p: nat): (q: nat)
    requires p <= |text|
    ensures p <= q <= |text| && forall i :: p <= i < q ==> IsDigit(text[i])
    decreases |text| - p
  {
    if p < |text| && IsDigit(text[p]) then DigitsEnd(text, p + 1) else p
  }

  function NumberAt(text: Text, p: nat): (r: Outcome)
    requires p < |text| && (text[p] == '-' || IsDigit(text[p]))
    ensures r.Parsed? ==> p < r.end <= |text|
  {
    var q := if text[p] == '-' then p + 1 else p;
    var z := if At(text, q) == '0' then q + 1 else q;
    var e := if '1' <= At(text, z) <= '9' then DigitsEnd(text, z) else z;
    var n: int := DigitsValue(text[z..e]);
    var v := if text[p] == '-' then -n else n;
    if (At(text, e) == '.' && IsDigit(At(text, e + 1))) || At(text, e) == 'e' || At(text, e) == 'E'
        || !Int32(v) then Undefined
    else Parsed(Number(v), e)
  }

  // ---- Strings ----

  datatype Lexed = Lexed(s: Text, end: nat) | NoString | Overrun

  function HexValue(c: char): nat {
    if '0' <= c <= '9' then c as nat - '0' as nat
    else if 'A' <= c <= 'F' then 10 + (c as nat - 'A' as nat)
    else if 'a' <= c <= 'f' then 10 + (c as nat - 'a' as nat) else 16
  }

  // parse_hex4: zero for anything but four hexadecimal digits.
  function Hex4(text: Text, p: nat): (h: nat)
    ensures h < 0x10000
  {
    var a, b, c, d := HexValue(At(text, p)), HexValue(At(text, p + 1)), HexValue(At(text, p + 2)),
        HexValue(At(text, p + 3));
    if a > 15 || b > 15 || c > 15 || d > 15 then 0 else ((a * 16 + b) * 16 + c) * 16 + d
  }

  // A code point as UTF-8 bytes.
  function Utf8(uc: nat): Text
    requires uc < 0x110000
  {
    if uc < 0x80 then [uc as char]
    else if uc < 0x800 then [(0xC0 + uc / 64) as char, (0x80 + uc % 64) as char]
    else if uc < 0x10000 then [(0xE0 + uc / 4096) as char, (0x80 + uc / 64 % 64) as char, (0x80 + uc % 64) as char]
    else [(0xF0 + uc / 262144) as char, (0x80 + uc / 4096 % 64) as char, (0x80 + uc / 64 % 64) as char,
          (0x80 + uc % 64) as char]
  }

  // What the escape \uXXXX at position p, a surrogate pair perhaps, adds to the string,
  // and how long it is.
  function Unicode(text: Text, p: nat): (Text, nat) {
    var uc := Hex4(text, p + 2);
    if 0xDC00 <= uc <= 0xDFFF || uc == 0 then ([], 6)
    else if 0xD800 <= uc <= 0xDBFF then
      if At(text, p + 6) != '\\' || At(text, p + 7) != 'u' then ([], 6) else
        var uc2 := Hex4(text, p + 8);
        if uc2 < 0xDC00 || uc2 > 0xDFFF then ([], 12)
        else (Utf8(0x10000 + uc % 0x400 * 0x400 + uc2 % 0x400), 12)
    else (Utf8(uc), 6)
  }

  function ShortEscape(c: char): char {
    if c == 'b' then '\U{8}' else if c == 'f' then '\U{c}' else if c == 'n' then '\n'
    else if c == 'r' then '\r' else if c == 't' then '\t' else c
  }

  // The rest of a string literal, `out` being unescaped already.
  function StringTail(text: Text, p: nat, out: Text): (r: Lexed)
    requires p <= |text|
    ensures r.Lexed? ==> p <= r.end <= |text|
    ensures r != NoString
    decreases |text| - p
  {
    var c := At(text, p);
    if c == '\"' then Lexed(out, p + 1)
    else if c == '\0' then Lexed(out, p)
    else if c != '\\' then StringTail(text, p + 1, out + [c])
    else if At(text, p + 1) == '\0' then Overrun
    else if At(text, p + 1) == 'u' then
      var u := Unicode(text, p);
      if p + u.1 > |text| then Overrun else StringTail(text, p + u.1, out + u.0)
    else StringTail(text, p + 2, out + [ShortEscape(text[p + 1])])
  }

  function StringAt(text: Text, p: nat): (r: Lexed)
    requires p <= |text|
    ensures r.Lexed? ==> p < r.end <= |text|
  {
    if At(text, p) != '\"' then NoString else StringTail(text, p + 1, [])
  }

  // ---- Values ----

  function ParseValue(text: Text, p: nat): (r: Outcome)
    requires p <= |text|
    ensures r.Parsed? ==> p < r.end <= |text|
    decreases |text| - p, 1
  {
    if Has(text, p, "null") then Parsed(Null, p + 4)
    else if Has(text, p, "false") then Parsed(Bool(false), p + 5)
    else if Has(text, p, "true") then Parsed(Bool(true), p + 4)
    else if At(text, p) == '\"' then
      var s := StringAt(text, p);
      if s.Lexed? then Parsed(String(s.s), s.end) else Undefined
    else if At(text, p) == '-' || IsDigit(At(text, p)) then NumberAt(text, p)
    else if At(text, p) == '[' then ParseArray(text, p)
    else if At(text, p) == '{' then ParseObject(text, p)
    else Failed
  }

  function ParseArray(text: Text, p: nat): (r: Outcome)
    requires p < |text|
    ensures r.Parsed? ==> p < r.end <= |text|
    decreases |text| - p, 0
  {
    var q := Skip(text, p + 1);
    if At(text, q) == ']' then Parsed(Array([]), q + 1) else
      var v := ParseValue(text, q);
      if v.Parsed? then ParseItems(text, Skip(text, v.end), [v.j]) else v
  }

  // After an element: the other elements up to the closing bracket.
  function ParseItems(text: Text, p: nat, items: seq<Json>): (r: Outcome)
    requires p <= |text|
    ensures r.Parsed? ==> p < r.end <= |text|
    decreases |text| - p, 0
  {
    if At(text, p) == ',' then
      var v := ParseValue(text, Skip(text, p + 1));
      if v.Parsed? then ParseItems(text, Skip(text, v.end), items + [v.j]) else v
    else if At(text, p) == ']' then Parsed(Array(items), p + 1)
    else Failed
  }

  datatype MemberOutcome = OneMember(m: Member, end: nat) | NoMember(why: Outcome)

  // A key, a colon and a value.
  function ParseMember(text: Text, p: nat): (r: MemberOutcome)
    requires p <= |text|
    ensures r.OneMember? ==> p < r.end <= |text|
    ensures r.NoMember? ==> !r.why.Parsed?
    decreases |text| - p, 1
  {
    var s := StringAt(text, p);
    if s.NoString? then NoMember(Failed)
    else if s.Overrun? then NoMember(Undefined)
    else
      var q := Skip(text, s.end);
      if At(text, q) != ':' then NoMember(Failed) else
        var v := ParseValue(text, Skip(text, q + 1));
        if v.Parsed? then OneMember(Member(s.s, v.j), v.end) else NoMember(v)
  }

  function ParseObject(text: Text, p: nat): (r: Outcome)
    requires p < |text|
    ensures r.Parsed? ==> p < r.end <= |text|
    decreases |text| - p, 0
  {
    var q := Skip(text, p + 1);
    if At(text, q) == '}' then Parsed(Object([]), q + 1) else
      var m := ParseMember(text, q);
      if m.OneMember? then ParseMembers(text, Skip(text, m.end), [m.m]) else m.why
  }

  function ParseMembers(text: Text, p: nat, ms: seq<Member>): (r: Outcome)
    requires p <= |text|
    ensures r.Parsed? ==> p < r.end <= |text|
    decreases |text| - p, 0
  {
    if At(text, p) == ',' then
      var m := ParseMember(text, Skip(text, p + 1));
      if m.OneMember? then ParseMembers(text, Skip(text, m.end), ms + [m.m]) else m.why
    else if At(text, p) == '}' then Parsed(Object(ms), p + 1)
    else Failed
  }

  // cJSON_ParseWithOpts.
  function Parse(text: Text, requireNullTerminated: bool): Outcome {
    var v := ParseValue(text, Skip(text, 0));
    if v.Parsed? && requireNullTerminated then
      var e := Skip(text, v.end);
      if At(text, e) != '\0' then Failed else Parsed(v.j, e)
    else v
  }
}
