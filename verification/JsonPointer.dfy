// JSON pointers (component/cJSON/cJSON_Utils.c, compare_pointers,
// decode_array_index_from_pointer and decode_pointer_inplace): their tokens, and the places
// in a value they mean to the standard and to the code.
module JsonPointer {
  import opened JsonValues
  import opened Options

  // ---- Texts and tokens ----

  // What stands between two slashes.
  ghost predicate IsToken(t: Text) {
    forall i :: 0 <= i < |t| ==> t[i] != '/'
  }

  // No character a pointer would have to escape.
  ghost predicate Plain(t: Text) {
    forall i :: 0 <= i < |t| ==> t[i] != '~' && t[i] != '/'
  }

  ghost predicate AllTokens(ts: seq<Text>) {
    forall i :: 0 <= i < |ts| ==> IsToken(ts[i])
  }

  function PathText(ts: seq<Text>): Text {
    if ts == [] then [] else "/" + ts[0] + PathText(ts[1..])
  }

  lemma {:induction false} PathAppend(ts: seq<Text>, t: Text)
    ensures PathText(ts + [t]) == PathText(ts) + "/" + t
  {
    if ts == [] {
      assert [t][1..] == [];
      assert PathText([t]) == "/" + t + [];
    } else {
      PathAppend(ts[1..], t);
      assert (ts + [t])[1..] == ts[1..] + [t];
    }
  }

  // Where the token from a position on ends.
  function TokenEnd(text: Text, p: nat): (q: nat)
    requires p <= |text|
    ensures p <= q <= |text| && (q < |text| ==> text[q] == '/') && forall i :: p <= i < q ==> text[i] != '/'
    decreases |text| - p
  {
    if p < |text| && text[p] != '/' then TokenEnd(text, p + 1) else p
  }

  // The tokens of a text that is empty or begins with a slash.
  function Tokens(text: Text): seq<Text>
    requires text == "" || text[0] == '/'
    decreases |text|
  {
    if text == "" then [] else
      var q := TokenEnd(text, 1);
      [text[1..q]] + Tokens(text[q..])
  }

  lemma {:induction false} TokensText(text: Text)
    requires text == "" || text[0] == '/'
    ensures PathText(Tokens(text)) == text && AllTokens(Tokens(text))
    decreases |text|
  {
    if text != "" {
      var q := TokenEnd(text, 1);
      TokensText(text[q..]);
      assert text == "/" + text[1..q] + text[q..];
    }
  }

  lemma {:induction false} TokensOfPath(ts: seq<Text>)
    requires AllTokens(ts)
    ensures PathText(ts) == "" || PathText(ts)[0] == '/'
    ensures Tokens(PathText(ts)) == ts
    decreases ts
  {
    if ts != [] {
      var text := PathText(ts);
      TokensOfPath(ts[1..]);
      var q := TokenEnd(text, 1);
      assert text[1..1 + |ts[0]|] == ts[0];
      assert forall i :: 1 <= i < 1 + |ts[0]| ==> text[i] == ts[0][i - 1];
      assert text[1 + |ts[0]|..] == PathText(ts[1..]);
      if 1 + |ts[0]| < |text| { assert text[1 + |ts[0]|] == text[1 + |ts[0]|..][0]; }
      assert q == 1 + |ts[0]|;
    }
  }

  // What a path text is: a pointer by RFC 6901, or, without the slash in front, something
  // of which only what follows the last slash has a meaning to the code.
  datatype Path = Pointer(ts: seq<Text>) | Loose(last: Option<Text>)

  function LastSlash(text: Text): (r: Option<nat>)
    ensures r.Some? ==> r.value < |text| && text[r.value] == '/' && forall i :: r.value < i < |text| ==> text[i] != '/'
    ensures r.None? ==> forall i :: 0 <= i < |text| ==> text[i] != '/'
  {
    if text == "" then None
    else if text[|text| - 1] == '/' then Some(|text| - 1)
    else LastSlash(text[..|text| - 1])
  }

  function PathOf(text: Text): Path {
    if text == "" || text[0] == '/' then Pointer(Tokens(text)) else
      var k := LastSlash(text);
      Loose(if k.None? then None else Some(text[k.value + 1..]))
  }

  // Where a path looks, and where it changes: without a slash in front, at the whole and
  // at a child of the whole.
  function Looked(path: Path): seq<Text> {
    if path.Pointer? then path.ts else []
  }

  function Target(path: Path): Option<seq<Text>> {
    match path
    case Pointer(ts) => Some(ts)
    case Loose(None) => None
    case Loose(Some(t)) => Some([t])
  }

  // A path without its last token: the path above.
  lemma SplitTokens(text: Text)
    ensures LastSlash(text).None? ==> text == "" || PathOf(text) == Loose(None)
    ensures LastSlash(text).Some? ==>
              var k := LastSlash(text).value;
              if text[0] == '/' then (k > 0 ==> text[..k][0] == '/')
                  && Tokens(text) == Tokens(text[..k]) + [text[k + 1..]]
              else PathOf(text) == Loose(Some(text[k + 1..])) && PathOf(text[..k]).Loose?
  {
    hide Tokens, PathText, LastSlash;
    var k := LastSlash(text);
    if k.Some? && text[0] == '/' { SplitRooted(text, k.value); }
  }

  lemma SplitRooted(text: Text, k: nat)
    requires k < |text| && text[0] == '/' == text[k] && forall i :: k < i < |text| ==> text[i] != '/'
    ensures (k > 0 ==> text[..k][0] == '/') && Tokens(text) == Tokens(text[..k]) + [text[k + 1..]]
  {
    hide Tokens, PathText;
    var above, t := Tokens(text[..k]), text[k + 1..];
    TokensText(text[..k]);
    PathAppend(above, t);
    assert text == text[..k] + "/" + t;
    TokensOfPath(above + [t]);
  }

  // ---- Escapes ----

  // A token with ~0 and ~1 read by the standard.
  function Unescaped(t: Text): (r: Option<Text>)
    ensures r.Some? ==> |r.value| <= |t|
  {
    if t == "" then Some("")
    else if t[0] == '~' then
      if |t| > 1 && t[1] == '0' then Behind('~', Unescaped(t[2..]))
      else if |t| > 1 && t[1] == '1' then Behind('/', Unescaped(t[2..]))
      else None
    else Behind(t[0], Unescaped(t[1..]))
  }

  function Behind(c: char, r: Option<Text>): Option<Text> {
    if r.Some? then Some([c] + r.value) else None
  }

  lemma {:induction false} PlainUnescaped(t: Text)
    requires Plain(t)
    ensures Unescaped(t) == Some(t)
  {
    if t != "" {
      PlainUnescaped(t[1..]);
      assert t == [t[0]] + t[1..];
    }
  }

  // What decode_pointer_inplace makes of a text: `d` places written, `p` read.
  function DecodeFrom(buf: Text, d: nat, p: nat): Text
    requires d <= p <= |buf|
    decreases |buf| - p
  {
    if p == |buf| then buf[..d]
    else if buf[p] != '~' then DecodeFrom(buf, d + 1, p + 1)
    else if p + 1 < |buf| && buf[p + 1] == '0' then DecodeFrom(buf[d := '~'], d + 1, p + 2)
    else if p + 1 < |buf| && buf[p + 1] == '1' then DecodeFrom(buf[d + 1 := '/'], d + 1, p + 2)
    else buf
  }

  function Decoded(t: Text): Text {
    DecodeFrom(t, 0, 0)
  }

  // decode_pointer_inplace, on the characters before the terminator; n of them are left.
  method DecodeInPlace(s: array<char>) returns (n: nat)
    modifies s
    ensures n <= s.Length && s[..n] == Decoded(old(s[..]))
  {
    var d, p := 0, 0;
    while p < s.Length
      invariant d <= p <= s.Length && DecodeFrom(s[..], d, p) == Decoded(old(s[..]))
      decreases s.Length - p
    {
      ghost var was := s[..];
      if s[p] == '~' {
        if p + 1 < s.Length && s[p + 1] == '0' {
          s[d] := '~';
          assert s[..] == was[d := '~'];
        } else if p + 1 < s.Length && s[p + 1] == '1' {
          s[d + 1] := '/';
          assert s[..] == was[d + 1 := '/'];
        } else {
          assert s[..s.Length] == s[..];
          return s.Length;
        }
        p := p + 1;
      }
      d, p := d + 1, p + 1;
    }
    assert s[..][..d] == s[..d];
    return d;
  }

  // What has been written stays.
  lemma {:induction false} DecodeKeeps(buf: Text, d: nat, p: nat)
    requires d <= p <= |buf|
    ensures d <= |DecodeFrom(buf, d, p)| && DecodeFrom(buf, d, p)[..d] == buf[..d]
    decreases |buf| - p, 0
  {
    if p < |buf| {
      if buf[p] != '~' {
        DecodeKeepsOne(buf, buf, d, p + 1);
      } else if p + 1 < |buf| && buf[p + 1] == '0' {
        DecodeKeepsOne(buf, buf[d := '~'], d, p + 2);
      } else if p + 1 < |buf| && buf[p + 1] == '1' {
        DecodeKeepsOne(buf, buf[d + 1 := '/'], d, p + 2);
      }
    }
  }

  lemma {:induction false} DecodeKeepsOne(buf: Text, next: Text, d: nat, p: nat)
    requires d < p <= |buf| == |next| && next[..d] == buf[..d]
    ensures d <= |DecodeFrom(next, d + 1, p)| && DecodeFrom(next, d + 1, p)[..d] == buf[..d]
    ensures d < |DecodeFrom(next, d + 1, p)| && DecodeFrom(next, d + 1, p)[d] == next[d]
    decreases |buf| - p, 1
  {
    DecodeKeeps(next, d + 1, p);
    var r := DecodeFrom(next, d + 1, p);
    assert r[..d] == r[..d + 1][..d] && next[..d] == next[..d + 1][..d];
    assert r[d] == r[..d + 1][d] && next[d] == next[..d + 1][d];
  }

  // Only ~0 occurs, and every other character is the one as many places before it as
  // there were escapes: a token the code decodes right.
  predicate Steady(t: Text, d: nat, p: nat)
    requires d <= p <= |t|
    decreases |t| - p
  {
    p == |t|
    || (if t[p] == '~' then p + 1 < |t| && t[p + 1] == '0' && Steady(t, d + 1, p + 2)
        else t[d] == t[p] && Steady(t, d + 1, p + 1))
  }

  lemma {:induction false} SteadyFrom(t: Text, buf: Text, d: nat, p: nat)
    requires IsToken(t) && |buf| == |t| && d <= p <= |t| && buf[d..] == t[d..]
    ensures Unescaped(t[p..]).Some? && DecodeFrom(buf, d, p) == buf[..d] + Unescaped(t[p..]).value <==> Steady(t, d, p)
    decreases |t| - p
  {
    hide DecodeFrom, Unescaped, Steady;
    SteadyStep(t, buf, d, p);
    if p < |t| {
      assert buf[p] == buf[d..][p - d] == t[p] && buf[d] == buf[d..][0] == t[d];
      if t[p] != '~' {
        assert buf[d + 1..] == buf[d..][1..] && t[d + 1..] == t[d..][1..];
        SteadyFrom(t, buf, d + 1, p + 1);
        DecodeKeepsOne(buf, buf, d, p + 1);
        PlainStep(buf, d, t[p], Unescaped(t[p + 1..]), DecodeFrom(buf, d + 1, p + 1));
      } else if p + 1 < |t| && (t[p + 1] == '0' || t[p + 1] == '1') {
        assert buf[p + 1] == buf[d..][p + 1 - d] == t[p + 1];
        if t[p + 1] == '0' {
          var next := buf[d := '~'];
          assert next[d + 1..] == buf[d..][1..] && t[d + 1..] == t[d..][1..];
          SteadyFrom(t, next, d + 1, p + 2);
          assert next[..d + 1] == buf[..d] + ['~'];
          if Unescaped(t[p + 2..]).Some? {
            assert buf[..d] + (['~'] + Unescaped(t[p + 2..]).value) == buf[..d] + ['~'] + Unescaped(t[p + 2..]).value;
          }
        } else {
          var next := buf[d + 1 := '/'];
          assert next[..d] == buf[..d];
          DecodeKeepsOne(buf, next, d, p + 2);
        }
      }
    } else {
      assert buf[..d] + "" == buf[..d];
    }
  }

  // One step of reading, decoding and looking ahead.
  lemma SteadyStep(t: Text, buf: Text, d: nat, p: nat)
    requires |buf| == |t| && d <= p <= |t|
    ensures p == |t| ==> Unescaped(t[p..]) == Some("") && DecodeFrom(buf, d, p) == buf[..d] && Steady(t, d, p)
    ensures p < |t| && t[p] != '~'
            ==> Unescaped(t[p..]) == Behind(t[p], Unescaped(t[p + 1..]))
                && (Steady(t, d, p) <==> t[d] == t[p] && Steady(t, d + 1, p + 1))
    ensures p < |t| && buf[p] != '~' ==> DecodeFrom(buf, d, p) == DecodeFrom(buf, d + 1, p + 1)
    ensures p + 1 < |t| && t[p] == '~' && t[p + 1] == '0'
            ==> Unescaped(t[p..]) == Behind('~', Unescaped(t[p + 2..]))
                && (Steady(t, d, p) <==> Steady(t, d + 1, p + 2))
    ensures p + 1 < |t| && t[p] == '~' && t[p + 1] == '1'
            ==> Unescaped(t[p..]) == Behind('/', Unescaped(t[p + 2..])) && !Steady(t, d, p)
    ensures p + 1 < |t| && buf[p] == '~' && buf[p + 1] == '0'
            ==> DecodeFrom(buf, d, p) == DecodeFrom(buf[d := '~'], d + 1, p + 2)
    ensures p + 1 < |t| && buf[p] == '~' && buf[p + 1] == '1'
            ==> DecodeFrom(buf, d, p) == DecodeFrom(buf[d + 1 := '/'], d + 1, p + 2)
    ensures p < |t| && t[p] == '~' && (p + 1 == |t| || (t[p + 1] != '0' && t[p + 1] != '1'))
            ==> Unescaped(t[p..]) == None && !Steady(t, d, p)
  {
    var r := t[p..];
    if p < |t| {
      assert r[0] == t[p] && r[1..] == t[p + 1..];
      if p + 1 < |t| { assert r[1] == t[p + 1] && r[2..] == t[p + 2..]; }
    }
  }

  lemma PlainStep(buf: Text, d: nat, c: char, rest: Option<Text>, r: Text)
    requires d < |buf| && d < |r| && r[..d] == buf[..d] && r[d] == buf[d]
    ensures rest.Some? ==> (r == buf[..d] + ([c] + rest.value) <==> buf[d] == c && r == buf[..d + 1] + rest.value)
  {
    assert buf[..d + 1] == buf[..d] + [buf[d]];
    if rest.Some? {
      assert buf[..d] + ([c] + rest.value) == buf[..d] + [c] + rest.value;
      assert (buf[..d] + [c] + rest.value)[d] == c;
    }
  }

  // decode_pointer_inplace reads a token as the standard does if and only if it is steady.
  lemma DecodesRight(t: Text)
    requires IsToken(t)
    ensures Unescaped(t) == Some(Decoded(t)) <==> Steady(t, 0, 0)
  {
    SteadyFrom(t, t, 0, 0);
    assert t[0..] == t;
    if Unescaped(t).Some? { assert t[..0] + Unescaped(t).value == Unescaped(t).value; }
  }

  // "~1" comes out as "~", and "~0a" as "~0".
  lemma DecodesWrong()
    ensures Unescaped("~1") == Some("/") && Decoded("~1") == "~"
    ensures Unescaped("~0a") == Some("~a") && Decoded("~0a") == "~0"
  {
    var s, t := "~1", "~0a";
    assert s[2..] == "" && Unescaped("") == Some("") && ['/'] + "" == "/";
    assert DecodeFrom(s, 0, 0) == s[1 := '/'][..1] == "~";
    assert t[2..] == "a" && "a"[1..] == "" && ['a'] + "" == "a" && ['~'] + "a" == "~a";
    assert Unescaped("a") == Some("a");
    var u := t[0 := '~'];
    assert DecodeFrom(t, 0, 0) == DecodeFrom(u, 1, 2) == DecodeFrom(u, 2, 3) == u[..2] == "~0";
  }

  lemma {:induction false} PlainSteady(t: Text, p: nat)
    requires Plain(t) && p <= |t|
    ensures Steady(t, p, p)
    decreases |t| - p
  {
    if p < |t| { PlainSteady(t, p + 1); }
  }

  lemma PlainDecoded(t: Text)
    requires Plain(t)
    ensures IsToken(t) && Unescaped(t) == Some(t) && Decoded(t) == t
  {
    PlainUnescaped(t);
    PlainSteady(t, 0);
    DecodesRight(t);
  }

  // ---- Array indexes ----

  // What the decoder takes for an index: no leading zero, a first character that is no
  // letter, and after it any characters from '0' on.
  ghost function IndexValue(t: Text): Option<nat> {
    if |t| > 1 && t[0] == '0' then None
    else if t == [] then Some(0)
    else if t[0] <= '9' && forall i :: 0 <= i < |t| ==> t[i] >= '0' then Some(DigitsValue(t))
    else None
  }

  // An array index by section 4 of RFC 6901: digits without a leading zero.
  predicate IsIndex(t: Text) {
    t != [] && (forall i :: 0 <= i < |t| ==> '0' <= t[i] <= '9') && (t[0] == '0' ==> |t| == 1)
  }

  // A token the decoder takes for an index and the standard does not.
  ghost predicate LaxIndex(t: Text) {
    IndexValue(t).Some? && !IsIndex(t)
  }

  // Among them are the empty token, read as 0, and "1:", read as 20.
  lemma LaxIndexes()
    ensures LaxIndex("") && IndexValue("") == Some(0)
    ensures LaxIndex("1:") && IndexValue("1:") == Some(20)
  {
    var t := "1:";
    assert t[..1] == "1" && t[..1][..0] == [];
    assert DigitsValue(t[..1]) == 1;
  }

  // A token of a pointer text, and what follows it.
  ghost predicate TokenAt(pointer: Text, p: nat, t: Text, tail: Text) {
    p <= |pointer| && pointer[p..] == t + tail && (tail == [] || tail[0] == '/') && IsToken(t)
  }

  lemma TokenChars(pointer: Text, p: nat, t: Text, tail: Text)
    requires TokenAt(pointer, p, t, tail)
    ensures p + |t| <= |pointer| && (p + |t| < |pointer| ==> pointer[p + |t|] == '/')
    ensures p + |t| == |pointer| <==> tail == []
    ensures forall i :: 0 <= i < |t| ==> pointer[p + i] == t[i]
    ensures forall i :: 0 <= i < |t| ==> t[i] != '/'
    ensures pointer[p + |t|..] == tail
  {
    assert |pointer[p..]| == |t| + |tail|;
    forall i | 0 <= i < |t| ensures pointer[p + i] == t[i] { assert pointer[p..][i] == (t + tail)[i]; }
    if tail != [] { assert pointer[p..][|t|] == tail[0]; }
    assert pointer[p + |t|..] == pointer[p..][|t|..];
  }

  // decode_array_index_from_pointer.
  method DecodeIndex(pointer: Text, p: nat, ghost t: Text, ghost tail: Text) returns (r: Option<nat>)
    requires TokenAt(pointer, p, t, tail)
    ensures r == IndexValue(t)
  {
    TokenChars(pointer, p, t, tail);
    var n := |pointer|;
    if p < n && pointer[p] == '0' && p + 1 < n && pointer[p + 1] != '/' {
      assert |t| > 1;
      return None;
    }
    var parsed, position := 0, p;
    while position < n && pointer[position] >= '0' && pointer[p] <= '9'
      invariant p <= position <= p + |t|
      invariant forall i :: 0 <= i < position - p ==> t[i] >= '0'
      invariant position > p ==> t[0] <= '9'
      invariant parsed == DigitsValue(t[..position - p])
    {
      assert pointer[position] == t[position - p];
      assert t[..position - p + 1][..position - p] == t[..position - p];
      parsed := 10 * parsed + (pointer[position] as nat - '0' as nat);
      position := position + 1;
    }
    if position < n && pointer[position] != '/' {
      assert pointer[position] == t[position - p];
      return None;
    }
    assert t[..|t|] == t;
    return Some(parsed);
  }

  // An index printed is an index read back.
  lemma DecimalIndex(n: nat)
    ensures IsIndex(Decimal(n)) && DigitsValue(Decimal(n)) == n && IndexValue(Decimal(n)) == Some(n)
    ensures Plain(Decimal(n)) && Decimal(n) != "-"
  {
    DecimalValue(n);
  }

  // ---- Reading the next token ----

  // Whether a token, escapes read, is the name as names count.
  predicate Names(t: Text, name: Text, cs: bool) {
    Unescaped(t).Some? && Fold(Unescaped(t).value, cs) == Fold(name, cs)
  }

  // One character of both.
  lemma NamesOn(t: Text, name: Text, cs: bool)
    ensures t == "" ==> (Names(t, name, cs) <==> name == "")
    ensures name == "" ==> (Names(t, name, cs) <==> t == "")
    ensures t != "" && name != "" && t[0] != '~'
            ==> (Names(t, name, cs) <==> Fold([t[0]], cs) == Fold([name[0]], cs) && Names(t[1..], name[1..], cs))
    ensures t != "" && t[0] == '~' && !(|t| > 1 && (t[1] == '0' || t[1] == '1')) ==> !Names(t, name, cs)
    ensures |t| > 1 && t[0] == '~' && name != "" && t[1] == '0'
            ==> (Names(t, name, cs) <==> name[0] == '~' && Names(t[2..], name[1..], cs))
    ensures |t| > 1 && t[0] == '~' && name != "" && t[1] == '1'
            ==> (Names(t, name, cs) <==> name[0] == '/' && Names(t[2..], name[1..], cs))
  {
    hide Unescaped, Fold;
    UnescapedOn(t);
    Empty(name, cs);
    if Unescaped(t).Some? { Empty(Unescaped(t).value, cs); }
    if name != "" {
      if t != "" && t[0] != '~' && Unescaped(t[1..]).Some? { CharOn(t[0], Unescaped(t[1..]).value, name, cs); }
      if |t| > 1 && t[0] == '~' && Unescaped(t[2..]).Some? {
        CharOn('~', Unescaped(t[2..]).value, name, cs);
        CharOn('/', Unescaped(t[2..]).value, name, cs);
        Unlettered(name[0], cs);
      }
    }
  }

  lemma Empty(s: Text, cs: bool)
    ensures |Fold(s, cs)| == |s| && Fold("", cs) == ""
  {
  }

  lemma UnescapedOn(t: Text)
    ensures t == "" ==> Unescaped(t) == Some("")
    ensures t != "" && t[0] != '~' ==> Unescaped(t) == Behind(t[0], Unescaped(t[1..]))
    ensures t != "" && t[0] == '~' && !(|t| > 1 && (t[1] == '0' || t[1] == '1')) ==> Unescaped(t) == None
    ensures |t| > 1 && t[0] == '~' && t[1] == '0' ==> Unescaped(t) == Behind('~', Unescaped(t[2..]))
    ensures |t| > 1 && t[0] == '~' && t[1] == '1' ==> Unescaped(t) == Behind('/', Unescaped(t[2..]))
  {
  }

  lemma FoldOn(s: Text, cs: bool)
    requires s != ""
    ensures Fold(s, cs) == Fold([s[0]], cs) + Fold(s[1..], cs) && |Fold([s[0]], cs)| == 1
  {
  }

  lemma FoldBehind(c: char, s: Text, cs: bool)
    ensures Fold([c] + s, cs) == Fold([c], cs) + Fold(s, cs) && |Fold([c], cs)| == 1
  {
    assert ([c] + s)[1..] == s;
    FoldOn([c] + s, cs);
  }

  lemma Unlettered(c: char, cs: bool)
    ensures Fold(['~'], cs) == Fold([c], cs) <==> c == '~'
    ensures Fold(['/'], cs) == Fold([c], cs) <==> c == '/'
  {
    var x, y, z := Fold(['~'], cs), Fold(['/'], cs), Fold([c], cs);
    assert x[0] == '~' && y[0] == '/' && z[0] == if cs then c else LowerChar(c);
    assert x == z <==> x[0] == z[0];
    assert y == z <==> y[0] == z[0];
  }

  lemma CharOn(c: char, u: Text, name: Text, cs: bool)
    requires name != ""
    ensures Fold([c] + u, cs) == Fold(name, cs)
            <==> Fold([c], cs) == Fold([name[0]], cs) && Fold(u, cs) == Fold(name[1..], cs)
  {
    hide Fold;
    FoldBehind(c, u, cs);
    FoldOn(name, cs);
    var a, b, x, y := Fold([c], cs), Fold([name[0]], cs), Fold(u, cs), Fold(name[1..], cs);
    if a + x == b + y { assert (a + x)[..1] == a && (b + y)[..1] == b && (a + x)[1..] == x && (b + y)[1..] == y; }
  }

  // compare_pointers: whether the next token names this member.
  method ComparePointers(name: Text, pointer: Text, p: nat, cs: bool, ghost t: Text, ghost tail: Text) returns (r: bool)
    requires TokenAt(pointer, p, t, tail)
    ensures r <==> Names(t, name, cs)
  {
    hide TokenAt, IsToken, Names, Fold;
    TokenChars(pointer, p, t, tail);
    var i, q, n := 0, p, |pointer|;
    ghost var k := 0;
    assert t[0..] == t && name[0..] == name;
    while i < |name| && q < n && pointer[q] != '/'
      invariant i <= |name| && k <= |t| && q == p + k
      invariant Names(t, name, cs) <==> Names(t[k..], name[i..], cs)
      decreases |name| - i
    {
      NamesOn(t[k..], name[i..], cs);
      assert k < |t| && pointer[q] == t[k] && t[k..][1..] == t[k + 1..] && name[i..][1..] == name[i + 1..];
      assert k + 1 < |t| ==> t[k..][1] == t[k + 1] == pointer[q + 1] && t[k..][2..] == t[k + 2..];
      if pointer[q] == '~' {
        var c := if q + 1 < n then pointer[q + 1] else '\0';
        assert k + 1 == |t| ==> c == '/' || c == '\0';
        if (c != '0' || name[i] != '~') && (c != '1' || name[i] != '/') {
          return false;
        }
        q, k := q + 1, k + 1;
      } else if Fold([name[i]], cs) != Fold([pointer[q]], cs) {
        return false;
      }
      i, q, k := i + 1, q + 1, k + 1;
    }
    NamesOn(t[k..], name[i..], cs);
    assert k < |t| ==> pointer[q] == t[k];
    r := (q < n && pointer[q] != '/') == (i < |name|);
  }

  lemma NextToken(pointer: Text, p: nat, rest: seq<Text>)
    requires 0 < p <= |pointer| && pointer[p - 1..] == PathText(rest) && AllTokens(rest)
    ensures rest != [] && TokenAt(pointer, p, rest[0], PathText(rest[1..])) && AllTokens(rest[1..])
  {
    assert pointer[p..] == pointer[p - 1..][1..];
    if rest != [] {
      assert pointer[p - 1..] == "/" + (rest[0] + PathText(rest[1..]));
      assert pointer[p..] == rest[0] + PathText(rest[1..]);
    }
  }

  lemma PathEnds(pointer: Text, p: nat, rest: seq<Text>)
    requires p <= |pointer| && pointer[p..] == PathText(rest) && (p == |pointer| || pointer[p] != '/')
    ensures rest == []
  {
  }

  // ---- Places in a value ----

  // How tokens are read: by the standard or as the code reads them, names counting with
  // case or without.
  datatype Reading = Reading(rfc: bool, cs: bool)

  function Code(cs: bool): Reading {
    Reading(false, cs)
  }

  function Rfc(cs: bool): Reading {
    Reading(true, cs)
  }

  ghost function Index(t: Text, rd: Reading): Option<nat> {
    if !rd.rfc then IndexValue(t) else if IsIndex(t) then Some(DigitsValue(t)) else None
  }

  ghost function KeyOf(t: Text, rd: Reading): Option<Text> {
    if Unescaped(t).Some? then Some(Fold(Unescaped(t).value, rd.cs)) else None
  }

  lemma IndexAgrees(t: Text, cs: bool)
    ensures Index(t, Reading(true, cs)) == if LaxIndex(t) then None else Index(t, Reading(false, cs))
  {
  }

  ghost function Child(v: Value, t: Text, rd: Reading): Option<Value> {
    match v
    case VArray(items) =>
      var i := Index(t, rd);
      if i.Some? && i.value < |items| then Some(items[i.value]) else None
    case VObject(f) =>
      var k := KeyOf(t, rd);
      if k.Some? && k.value in f then Some(f[k.value]) else None
    case _ => None
  }

  ghost function SetChild(v: Value, t: Text, w: Value, rd: Reading): Value
    requires Child(v, t, rd).Some?
  {
    match v
    case VArray(items) => VArray(items[Index(t, rd).value := w])
    case VObject(f) => VObject(f[KeyOf(t, rd).value := w])
  }

  ghost function ValueAt(v: Value, ts: seq<Text>, rd: Reading): Option<Value> {
    if ts == [] then Some(v)
    else if Child(v, ts[0], rd).None? then None else ValueAt(Child(v, ts[0], rd).value, ts[1..], rd)
  }

  ghost function ValuePut(v: Value, ts: seq<Text>, w: Value, rd: Reading): Value
    requires ValueAt(v, ts, rd).Some?
  {
    if ts == [] then w else SetChild(v, ts[0], ValuePut(Child(v, ts[0], rd).value, ts[1..], w, rd), rd)
  }
}
