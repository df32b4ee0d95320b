// The parser's loops (component/cJSON/cJSON.c, skip, parse_number, parse_string,
// parse_array, parse_object), each computing the function of JsonParse it stands for.
module JsonParser {
  import opened JsonValues
  import opened JsonText
  import opened JsonParse
  import opened JsonGrammar
  import opened JsonAccepts
  import opened JsonInverse

  method SkipBlanks(text: Text, p: nat) returns (q: nat)
    requires p <= |text|
    ensures q == Skip(text, p)
  {
    q := p;
    while q < |text| && '\0' < text[q] <= ' '
      invariant p <= q <= |text| && Skip(text, p) == Skip(text, q)
    {
      q := q + 1;
    }
  }

  method ReadDigits(text: Text, p: nat) returns (n: int, q: nat)
    requires p <= |text|
    ensures q == DigitsEnd(text, p) && n == DigitsValue(text[p..q])
  {
    n, q := 0, p;
    while q < |text| && IsDigit(text[q])
      invariant p <= q <= |text| && DigitsEnd(text, p) == DigitsEnd(text, q)
      invariant forall i :: p <= i < q ==> IsDigit(text[i])
      invariant n == DigitsValue(text[p..q])
    {
      assert text[p..q + 1][..q - p] == text[p..q];
      n := n * 10 + (text[q] as int - '0' as int);
      q := q + 1;
    }
  }

  // parse_number, on integers.
  method ReadNumber(text: Text, p: nat) returns (r: Outcome)
    requires p < |text| && (text[p] == '-' || IsDigit(text[p]))
    ensures r == NumberAt(text, p)
  {
    hide DigitsEnd, DigitsValue;
    var num, sign := p, 1;
    if text[num] == '-' {
      sign, num := -1, num + 1;
    }
    if At(text, num) == '0' {
      num := num + 1;
    }
    var n := 0;
    ghost var z := num;
    ZeroText();
    assert text[z..z] == [];
    if '1' <= At(text, num) <= '9' {
      n, num := ReadDigits(text, num);
    }
    if At(text, num) == '.' && IsDigit(At(text, num + 1)) {
      return Undefined;
    }
    if At(text, num) == 'e' || At(text, num) == 'E' {
      return Undefined;
    }
    n := sign * n;
    if !Int32(n) {
      return Undefined;
    }
    return Parsed(Number(n), num);
  }

  // parse_string.
  method ReadString(text: Text, p: nat) returns (r: Lexed)
    requires p <= |text|
    ensures r == StringAt(text, p)
  {
    hide Unicode, ShortEscape;
    if At(text, p) != '\"' {
      return NoString;
    }
    var ptr, out: Text := p + 1, [];
    while At(text, ptr) != '\"' && At(text, ptr) != '\0'
      invariant ptr <= |text| && StringTail(text, p + 1, []) == StringTail(text, ptr, out)
      decreases |text| - ptr
    {
      if text[ptr] != '\\' {
        out := out + [text[ptr]];
        ptr := ptr + 1;
      } else {
        var c := At(text, ptr + 1);
        if c == '\0' {
          return Overrun;
        }
        if c == 'u' {
          var u := Unicode(text, ptr);
          if ptr + u.1 > |text| {
            return Overrun;
          }
          UnicodeLength(text, ptr);
          out := out + u.0;
          ptr := ptr + u.1;
        } else {
          out := out + [ShortEscape(c)];
          ptr := ptr + 2;
        }
      }
    }
    if At(text, ptr) == '\"' {
      return Lexed(out, ptr + 1);
    }
    return Lexed(out, ptr);
  }

  lemma UnicodeLength(text: Text, p: nat)
    ensures Unicode(text, p).1 >= 6
  {
  }

  // parse_value.
  method ReadValue(text: Text, p: nat) returns (r: Outcome)
    requires p <= |text|
    ensures r == ParseValue(text, p)
    decreases |text| - p, 1
  {
    hide Has, NumberAt, StringAt, ParseArray, ParseObject;
    if Has(text, p, "null") {
      return Parsed(Null, p + 4);
    }
    if Has(text, p, "false") {
      return Parsed(Bool(false), p + 5);
    }
    if Has(text, p, "true") {
      return Parsed(Bool(true), p + 4);
    }
    var c := At(text, p);
    if c == '\"' {
      var s := ReadString(text, p);
      return if s.Lexed? then Parsed(String(s.s), s.end) else Undefined;
    }
    if c == '-' || IsDigit(c) {
      r := ReadNumber(text, p);
    } else if c == '[' {
      r := ReadArray(text, p);
    } else if c == '{' {
      r := ReadObject(text, p);
    } else {
      r := Failed;
    }
  }

  // parse_array.
  method ReadArray(text: Text, p: nat) returns (r: Outcome)
    requires p < |text|
    ensures r == ParseArray(text, p)
    decreases |text| - p, 0
  {
    hide Skip, ParseValue;
    var value := SkipBlanks(text, p + 1);
    if At(text, value) == ']' {
      return Parsed(Array([]), value + 1);
    }
    var child := ReadValue(text, value);
    if !child.Parsed? {
      return child;
    }
    var items := [child.j];
    value := SkipBlanks(text, child.end);
    while At(text, value) == ','
      invariant p < value <= |text|
      invariant ParseArray(text, p) == ParseItems(text, value, items)
      decreases |text| - value
    {
      var next := SkipBlanks(text, value + 1);
      child := ReadValue(text, next);
      if !child.Parsed? {
        return child;
      }
      items := items + [child.j];
      value := SkipBlanks(text, child.end);
    }
    if At(text, value) == ']' {
      return Parsed(Array(items), value + 1);
    }
    return Failed;
  }

  // One member of an object: key, colon, value.
  method ReadMember(text: Text, p: nat) returns (r: MemberOutcome)
    requires p <= |text|
    ensures r == ParseMember(text, p)
    decreases |text| - p, 1
  {
    hide Skip, ParseValue, StringAt;
    var s := ReadString(text, p);
    if s.NoString? {
      return NoMember(Failed);
    }
    if s.Overrun? {
      return NoMember(Undefined);
    }
    var colon := SkipBlanks(text, s.end);
    if At(text, colon) != ':' {
      return NoMember(Failed);
    }
    var value := SkipBlanks(text, colon + 1);
    var v := ReadValue(text, value);
    return if v.Parsed? then OneMember(Member(s.s, v.j), v.end) else NoMember(v);
  }

  // parse_object.
  method ReadObject(text: Text, p: nat) returns (r: Outcome)
    requires p < |text|
    ensures r == ParseObject(text, p)
    decreases |text| - p, 0
  {
    hide Skip, ParseMember;
    var value := SkipBlanks(text, p + 1);
    if At(text, value) == '}' {
      return Parsed(Object([]), value + 1);
    }
    var m := ReadMember(text, value);
    if m.NoMember? {
      return m.why;
    }
    var ms := [m.m];
    value := SkipBlanks(text, m.end);
    while At(text, value) == ','
      invariant p < value <= |text|
      invariant ParseObject(text, p) == ParseMembers(text, value, ms)
      decreases |text| - value
    {
      var next := SkipBlanks(text, value + 1);
      m := ReadMember(text, next);
      if m.NoMember? {
        return m.why;
      }
      ms := ms + [m.m];
      value := SkipBlanks(text, m.end);
    }
    if At(text, value) == '}' {
      return Parsed(Object(ms), value + 1);
    }
    return Failed;
  }

  // cJSON_ParseWithOpts: on every JSON text the value it stands for, and so the tree on a
  // text cJSON printed.
  method ParseWithOpts(text: Text, requireNullTerminated: bool) returns (r: Outcome)
    ensures r == Parse(text, requireNullTerminated)
    ensures forall v :: ValidSpaced(v) && text == SpacedWritten(v) && requireNullTerminated
              ==> r == Parsed(Denoted(v.s), |text|)
    ensures forall j, fmt :: Printable(j) && text == Print(j, 0, fmt) && requireNullTerminated
              ==> r == Parsed(j, |text|)
  {
    hide Skip, ParseValue, Print, Printable, Written, Denoted, Valid, ValidSpaced, SpacedWritten;
    var start := SkipBlanks(text, 0);
    r := ReadValue(text, start);
    if r.Parsed? && requireNullTerminated {
      var end := SkipBlanks(text, r.end);
      r := if At(text, end) != '\0' then Failed else Parsed(r.j, end);
    }
    forall v | ValidSpaced(v) && text == SpacedWritten(v) && requireNullTerminated
      ensures r == Parsed(Denoted(v.s), |text|)
    {
      TextAccepted(v);
    }
    forall j, fmt | Printable(j) && text == Print(j, 0, fmt) && requireNullTerminated ensures r == Parsed(j, |text|) {
      PrintParse(j, fmt);
    }
  }
}
