// Every JSON text, numbers being 32-bit integers, is parsed to the value it stands for
// (component/cJSON/cJSON.c, parse_value and its parts).
module JsonAccepts {
  import opened JsonValues
  import opened JsonText
  import opened JsonParse
  import opened JsonGrammar

  // ---- Characters ----

  // The bytes written for a code point are its UTF-8, and nothing else is.
  lemma Utf8Encodes(uc: nat, s: Text)
    requires uc < 0x110000
    ensures Encodes(s, uc) <==> s == Utf8(uc)
  {
    if uc < 0x80 {
      OneByte(uc, s);
    } else if uc < 0x800 {
      TwoBytes(uc, s);
    } else if uc < 0x10000 {
      ThreeBytes(uc, s);
    } else {
      FourBytes(uc, s);
    }
  }

  lemma OneByte(uc: nat, s: Text)
    requires uc < 0x80
    ensures Encodes(s, uc) <==> s == [uc as char]
  {
    if Encodes(s, uc) { assert s == [s[0]]; }
  }

  lemma TwoBytes(uc: nat, s: Text)
    requires 0x80 <= uc < 0x800
    ensures Encodes(s, uc) <==> s == [(0xC0 + uc / 64) as char, (0x80 + uc % 64) as char]
  {
    if Encodes(s, uc) { assert s == [s[0], s[1]]; }
  }

  lemma ThreeBytes(uc: nat, s: Text)
    requires 0x800 <= uc < 0x10000
    ensures Encodes(s, uc)
            <==> s == [(0xE0 + uc / 4096) as char, (0x80 + uc / 64 % 64) as char, (0x80 + uc % 64) as char]
  {
    var a, b, c := uc / 4096, uc / 64 % 64, uc % 64;
    assert uc == 4096 * a + 64 * b + c;
    if Encodes(s, uc) {
      Digits64(s[0] as nat - 0xE0, Low(s[1]), Low(s[2]), a, b, c);
      assert s == [s[0], s[1], s[2]];
    }
  }

  lemma Digits64(x: nat, y: nat, z: nat, a: nat, b: nat, c: nat)
    requires 4096 * x + 64 * y + z == 4096 * a + 64 * b + c && y < 64 && z < 64 && b < 64 && c < 64
    ensures x == a && y == b && z == c
  {
  }

  lemma FourBytes(uc: nat, s: Text)
    requires 0x10000 <= uc < 0x110000
    ensures Encodes(s, uc)
            <==> s == [(0xF0 + uc / 262144) as char, (0x80 + uc / 4096 % 64) as char, (0x80 + uc / 64 % 64) as char,
                       (0x80 + uc % 64) as char]
  {
    var h, a, b, c := uc / 262144, uc / 4096 % 64, uc / 64 % 64, uc % 64;
    var q := uc / 4096;
    assert uc == 4096 * q + 64 * b + c && q == 64 * h + a;
    if Encodes(s, uc) {
      Digits64(64 * (s[0] as nat - 0xF0) + Low(s[1]), Low(s[2]), Low(s[3]), q, b, c);
      Digits64(0, s[0] as nat - 0xF0, Low(s[1]), 0, h, a);
      assert s == [s[0], s[1], s[2], s[3]];
    }
  }

  lemma DigitRead(c: char, d: nat)
    requires DigitIs(c, d)
    ensures HexValue(c) == d
  {
    if d < 10 {
      assert "0123456789abcdef"[d] == "0123456789ABCDEF"[d] == '0' + (d as char);
    } else {
      assert "0123456789abcdef"[d] == 'a' + ((d - 10) as char) && "0123456789ABCDEF"[d] == 'A' + ((d - 10) as char);
    }
  }

  lemma HexRead(text: Text, p: nat, h: Text, u: nat)
    requires Has(text, p, h) && HexOf(h, u)
    ensures Hex4(text, p) == u
  {
    hide Has, HexValue, DigitIs;
    HasChar(text, p, h, 0);
    HasChar(text, p, h, 1);
    HasChar(text, p, h, 2);
    HasChar(text, p, h, 3);
    DigitRead(h[0], u / 4096);
    DigitRead(h[1], u / 256 % 16);
    DigitRead(h[2], u / 16 % 16);
    DigitRead(h[3], u % 16);
    Sixteens(u);
  }

  lemma Sixteens(u: nat)
    requires u < 0x10000
    ensures ((u / 4096 * 16 + u / 256 % 16) * 16 + u / 16 % 16) * 16 + u % 16 == u
  {
    var a, b := u / 16, u / 256;
    assert u == 16 * a + u % 16;
    assert a == 16 * b + a % 16;
    assert b == 16 * (u / 4096) + b % 16;
  }

  // An escaped code point, surrogate pairs included, adds its UTF-8.
  lemma EscapeRead(text: Text, p: nat, t: Text, cp: nat)
    requires Has(text, p, t) && EscapeOf(t, cp) && Scalar(cp) && cp > 0
    ensures Unicode(text, p) == (Utf8(cp), |t|)
  {
    hide Has, HexOf, Utf8, Hex4;
    if cp < 0x10000 {
      assert t == t[..2] + t[2..];
      HasJoin(text, p, t[..2], t[2..]);
      HexRead(text, p + 2, t[2..], cp);
    } else {
      assert t == t[..2] + t[2..6] + t[6..8] + t[8..];
      HasJoin(text, p, t[..2] + t[2..6] + t[6..8], t[8..]);
      HasJoin(text, p, t[..2] + t[2..6], t[6..8]);
      HasJoin(text, p, t[..2], t[2..6]);
      HasChar(text, p, t, 6);
      HasChar(text, p, t, 7);
      assert t[6] == t[6..8][0] && t[7] == t[6..8][1];
      HexRead(text, p + 2, t[2..6], 0xD800 + (cp - 0x10000) / 0x400);
      HexRead(text, p + 8, t[8..], 0xDC00 + (cp - 0x10000) % 0x400);
      PairBack(cp);
    }
  }

  lemma PairBack(cp: nat)
    requires 0x10000 <= cp < 0x110000
    ensures var hi, lo := 0xD800 + (cp - 0x10000) / 0x400, 0xDC00 + (cp - 0x10000) % 0x400;
            0xD800 <= hi <= 0xDBFF && 0xDC00 <= lo <= 0xDFFF && 0x10000 + hi % 0x400 * 0x400 + lo % 0x400 == cp
  {
  }

  // Two escapes are passed over where the first is a high surrogate. Nothing is added exactly
  // for a zero, what is no four digits included, and for surrogates that make no pair.
  lemma EscapeDropped(text: Text, p: nat)
    ensures Unicode(text, p).0 == []
            <==> var u := Hex4(text, p + 2);
                 u == 0 || 0xDC00 <= u < 0xE000
                 || (0xD800 <= u < 0xDC00 && !(At(text, p + 6) == '\\' && At(text, p + 7) == 'u'
                                              && 0xDC00 <= Hex4(text, p + 8) < 0xE000))
    ensures Unicode(text, p).1
            == if 0xD800 <= Hex4(text, p + 2) < 0xDC00 && At(text, p + 6) == '\\' && At(text, p + 7) == 'u'
               then 12 else 6
  {
    hide Hex4;
  }

  // Its digits are four or they are none.
  lemma HexOnly(text: Text, p: nat)
    requires Hex4(text, p) != 0
    ensures p + 4 <= |text| && HexOf(text[p..p + 4], Hex4(text, p))
  {
    hide HexValue, DigitIs;
    var a, b, c, d := HexValue(At(text, p)), HexValue(At(text, p + 1)), HexValue(At(text, p + 2)),
        HexValue(At(text, p + 3));
    DigitOf(At(text, p));
    DigitOf(At(text, p + 1));
    DigitOf(At(text, p + 2));
    DigitOf(At(text, p + 3));
    FourDigits(a, b, c, d);
    assert text[p..p + 4] == [At(text, p), At(text, p + 1), At(text, p + 2), At(text, p + 3)];
  }

  lemma DigitOf(c: char)
    ensures HexValue(c) <= 15 ==> DigitIs(c, HexValue(c)) && c != '\0'
  {
  }

  lemma FourDigits(a: nat, b: nat, c: nat, d: nat)
    requires a <= 15 && b <= 15 && c <= 15 && d <= 15
    ensures var u := ((a * 16 + b) * 16 + c) * 16 + d;
            u < 0x10000 && u / 4096 == a && u / 256 % 16 == b && u / 16 % 16 == c && u % 16 == d
  {
    var u := ((a * 16 + b) * 16 + c) * 16 + d;
    assert u / 16 == (a * 16 + b) * 16 + c && u / 256 == a * 16 + b;
  }

  // Any other character behind a backslash stands for itself.
  lemma OtherEscape(c: char)
    requires c !in "bfnrtu"
    ensures ShortEscape(c) == c
  {
    var s := "bfnrtu";
    assert s[0] in s && s[1] in s && s[2] in s && s[3] in s && s[4] in s;
  }

  // Blanks are all control characters and the space.
  lemma {:induction false} Blanks(text: Text, p: nat)
    requires p <= |text|
    ensures forall i :: p <= i < Skip(text, p) ==> 1 <= text[i] as nat <= 32
    ensures Skip(text, p) < |text| ==> !(1 <= text[Skip(text, p)] as nat <= 32)
    decreases |text| - p
  {
    if p < |text| && 1 <= text[p] as nat <= 32 { Blanks(text, p + 1); }
  }

  // One character of a literal is one character read.
  lemma PieceRead(text: Text, p: nat, c: Piece, out: Text)
    requires Has(text, p, c.text) && IsPiece(c)
    ensures c.text != [] && p + |c.text| <= |text|
    ensures StringTail(text, p, out) == StringTail(text, p + |c.text|, out + c.bytes)
  {
    hide Has, Unicode, EscapeOf, Encodes;
    HasSlice(text, p, c.text);
    if |c.text| == 1 && ' ' <= c.text[0] && c.text[0] != '\"' && c.text[0] != '\\' && c.bytes == c.text {
      HasChar(text, p, c.text, 0);
      assert c.bytes == [c.text[0]];
    } else if exists k: nat :: k < |SHORT| && c.text == ['\\', SHORT[k]] && c.bytes == [MEANT[k]] {
      var k: nat :| k < |SHORT| && c.text == ['\\', SHORT[k]] && c.bytes == [MEANT[k]];
      HasChar(text, p, c.text, 0);
      HasChar(text, p, c.text, 1);
      ShortRead(k);
    } else {
      var cp :| 0 < cp && Scalar(cp) && EscapeOf(c.text, cp) && Encodes(c.bytes, cp);
      UnicodeRead(text, p, c, cp, out);
    }
  }

  lemma ShortRead(k: nat)
    requires k < |SHORT|
    ensures SHORT[k] != 'u' && SHORT[k] != '\0' && ShortEscape(SHORT[k]) == MEANT[k]
  {
  }

  lemma UnicodeRead(text: Text, p: nat, c: Piece, cp: nat, out: Text)
    requires Has(text, p, c.text) && 0 < cp && Scalar(cp) && EscapeOf(c.text, cp) && Encodes(c.bytes, cp)
    ensures c.text != [] && p + |c.text| <= |text|
    ensures StringTail(text, p, out) == StringTail(text, p + |c.text|, out + c.bytes)
  {
    hide Has, Unicode, Encodes, HexOf;
    HasSlice(text, p, c.text);
    HasChar(text, p, c.text, 0);
    HasChar(text, p, c.text, 1);
    assert c.text[..2][0] == c.text[0] && c.text[..2][1] == c.text[1];
    EscapeRead(text, p, c.text, cp);
    Utf8Encodes(cp, c.bytes);
  }

  lemma {:induction false} PiecesRead(text: Text, p: nat, ps: seq<Piece>, out: Text)
    requires Has(text, p, Texts(ps) + "\"") && AllPieces(ps)
    ensures p <= |text| && StringTail(text, p, out) == Lexed(out + Bytes(ps), p + |Texts(ps)| + 1)
    decreases |ps|
  {
    hide Has, IsPiece, StringTail;
    HasSlice(text, p, Texts(ps) + "\"");
    if ps == [] {
      HasChar(text, p, Texts(ps) + "\"", 0);
      QuoteEnds(text, p, out);
    } else {
      var t, rest := ps[0].text, Texts(ps[1..]);
      assert Texts(ps) + "\"" == t + (rest + "\"");
      HasJoin(text, p, t, rest + "\"");
      PieceRead(text, p, ps[0], out);
      PiecesRead(text, p + |t|, ps[1..], out + ps[0].bytes);
      Joined(out, ps[0].bytes, Bytes(ps[1..]));
    }
  }

  lemma QuoteEnds(text: Text, p: nat, out: Text)
    requires p <= |text| && At(text, p) == '\"'
    ensures StringTail(text, p, out) == Lexed(out + [], p + 1)
  {
    assert out + [] == out;
  }

  lemma Joined(a: Text, b: Text, c: Text)
    ensures a + b + c == a + (b + c)
  {
  }

  lemma LiteralRead(text: Text, p: nat, ps: seq<Piece>)
    requires Has(text, p, "\"" + Texts(ps) + "\"") && AllPieces(ps)
    ensures p <= |text| && At(text, p) == '\"' && StringAt(text, p) == Lexed(Bytes(ps), p + |Texts(ps)| + 2)
  {
    hide Has, StringTail, IsPiece;
    var body := Texts(ps) + "\"";
    assert "\"" + Texts(ps) + "\"" == "\"" + body;
    HasSlice(text, p, "\"" + body);
    HasChar(text, p, "\"" + body, 0);
    HasJoin(text, p, "\"", body);
    PiecesRead(text, p + 1, ps, []);
    assert [] + Bytes(ps) == Bytes(ps);
  }

  // ---- Numbers ----

  // A character that cannot continue a number.
  predicate Delimits(c: char) {
    !IsDigit(c) && c != '.' && c != 'e' && c != 'E'
  }

  lemma {:induction false} DigitsRun(text: Text, p: nat, s: Text)
    requires Has(text, p, s) && (forall i :: 0 <= i < |s| ==> IsDigit(s[i])) && !IsDigit(At(text, p + |s|))
    ensures DigitsEnd(text, p) == p + |s|
    decreases |s|
  {
    if s != [] {
      HasChar(text, p, s, 0);
      assert s == [s[0]] + s[1..];
      HasJoin(text, p, [s[0]], s[1..]);
      DigitsRun(text, p + 1, s[1..]);
    }
  }

  lemma ZeroText()
    ensures DigitsValue([]) == 0 && DigitsValue("0") == 0
  {
    assert "0"[..0] == [];
  }

  // The digits of a number, from the position the sign leaves.
  lemma DigitsRead(text: Text, q: nat, s: Text)
    requires Has(text, q, s) && IsDigits(s) && !IsDigit(At(text, q + |s|))
    ensures IsDigit(At(text, q)) && q + |s| <= |text|
    ensures var z := if At(text, q) == '0' then q + 1 else q;
            var e := if '1' <= At(text, z) <= '9' then DigitsEnd(text, z) else z;
            e == q + |s| && DigitsValue(text[z..e]) == DigitsValue(s)
  {
    hide DigitsEnd, DigitsValue, Has;
    ZeroText();
    HasChar(text, q, s, 0);
    HasSlice(text, q, s);
    if s[0] == '0' {
      assert s == "0" && text[q + 1..q + 1] == [];
    } else {
      DigitsRun(text, q, s);
    }
  }

  lemma NumeralRead(text: Text, p: nat, minus: bool, digits: Text)
    requires IsDigits(digits) && Int32(Amount(minus, digits))
    requires var s := (if minus then "-" else "") + digits; Has(text, p, s) && Delimits(At(text, p + |s|))
    ensures p < |text| && (text[p] == '-' || IsDigit(text[p]))
    ensures NumberAt(text, p) == Parsed(Number(Amount(minus, digits)), p + |(if minus then "-" else "") + digits|)
  {
    hide DigitsEnd, DigitsValue, Has;
    var s := (if minus then "-" else "") + digits;
    HasChar(text, p, s, 0);
    if minus {
      HasJoin(text, p, "-", digits);
      DigitsRead(text, p + 1, digits);
    } else {
      assert s == digits;
      DigitsRead(text, p, digits);
    }
  }

  // ---- Blanks ----

  lemma {:induction false} SkipOver(text: Text, p: nat, s: Text)
    requires Has(text, p, s) && Space(s)
    ensures p + |s| <= |text| && Skip(text, p) == Skip(text, p + |s|)
    decreases |s|
  {
    if s != [] {
      HasChar(text, p, s, 0);
      assert s == [s[0]] + s[1..];
      HasJoin(text, p, [s[0]], s[1..]);
      SkipOver(text, p + 1, s[1..]);
    }
  }

  lemma SkipNone(text: Text, p: nat)
    requires p <= |text| && At(text, p) > ' '
    ensures Skip(text, p) == p
  {
  }

  // Blanks up to something visible.
  lemma SkipTo(text: Text, p: nat, s: Text)
    requires Has(text, p, s) && Space(s) && At(text, p + |s|) > ' '
    ensures p + |s| <= |text| && Skip(text, p) == p + |s|
  {
    hide Skip, Has;
    SkipOver(text, p, s);
    SkipNone(text, p + |s|);
  }

  // ---- Values ----

  // The literal names start with letters.
  lemma Words(text: Text, p: nat)
    ensures Has(text, p, "null") ==> At(text, p) == 'n'
    ensures Has(text, p, "false") ==> At(text, p) == 'f'
    ensures Has(text, p, "true") ==> At(text, p) == 't'
  {
    if Has(text, p, "null") { HasChar(text, p, "null", 0); }
    if Has(text, p, "false") { HasChar(text, p, "false", 0); }
    if Has(text, p, "true") { HasChar(text, p, "true", 0); }
  }

  // Every value starts with a character that is neither blank nor a closing bracket.
  lemma FirstChar(s: Syntax)
    requires Valid(s)
    ensures var t := Written(s); |t| > 0 && t[0] > ' ' && t[0] != ']' && t[0] != '}' && t[0] != ',' && t[0] != ':'
  {
    hide ItemsWritten, PairsWritten, Texts;
  }

  lemma Visible(text: Text, p: nat, s: Syntax)
    requires Valid(s) && Has(text, p, Written(s))
    ensures p < |text| && p + |Written(s)| <= |text| && At(text, p) == Written(s)[0] > ' '
    ensures var c := At(text, p); c != ']' && c != '}' && c != ',' && c != ':'
  {
    hide Written, Valid;
    FirstChar(s);
    HasChar(text, p, Written(s), 0);
    HasSlice(text, p, Written(s));
  }

  // A value wherever its text stands, if what follows cannot continue a number.
  lemma {:induction false} Accepted(text: Text, p: nat, s: Syntax)
    requires Valid(s) && Has(text, p, Written(s)) && Delimits(At(text, p + |Written(s)|))
    ensures p < |text| && ParseValue(text, p) == Parsed(Denoted(s), p + |Written(s)|)
    decreases s, 1
  {
    hide Has, Skip, ItemsWritten, PairsWritten, ParseArray, ParseObject, NumberAt, StringAt, Texts, IsPiece;
    Visible(text, p, s);
    Words(text, p);
    match s
    case Name(j) =>
    case Numeral(minus, digits) => NumeralRead(text, p, minus, digits);
    case Literal(ps) => LiteralRead(text, p, ps);
    case List(ws, items) => ListAccepted(text, p, s);
    case Record(ws, ms) => RecordAccepted(text, p, s);
  }

  // A value with what is around it: where it starts, ends, and is followed by something.
  ghost predicate Stretch(text: Text, p: nat, v: Spaced, z: nat) {
    && Has(text, p, v.before) && Has(text, p + |v.before|, Written(v.s))
    && Has(text, p + |v.before| + |Written(v.s)|, v.after) && z == p + |v.before| + |Written(v.s)| + |v.after|
    && z < |text| && text[z] in {',', ']', '}'}
  }

  lemma {:induction false} SpacedAccepted(text: Text, p: nat, v: Spaced, z: nat)
    requires ValidSpaced(v) && Stretch(text, p, v, z)
    ensures var a := p + |v.before|; var e := a + |Written(v.s)|;
            && p <= a < |text| && Skip(text, p) == a && ParseValue(text, a) == Parsed(Denoted(v.s), e)
            && Skip(text, e) == z
            && At(text, a) != ']' && At(text, a) != '}'
    decreases v
  {
    hide Has, Skip, Written, ParseValue;
    var a := p + |v.before|;
    var e := a + |Written(v.s)|;
    Visible(text, a, v.s);
    SkipTo(text, p, v.before);
    SkipTo(text, e, v.after);
    if v.after != [] { HasChar(text, e, v.after, 0); }
    Accepted(text, a, v.s);
  }

  // ---- Arrays ----

  // The element at position i in the text, and what follows it.
  lemma ItemSplit(text: Text, p: nat, s: Syntax, i: nat)
    requires s.List? && i < |s.items| && Has(text, p, ItemsWritten(s, i) + "]")
    ensures var z := p + |SpacedWritten(s.items[i])|;
            && Stretch(text, p, s.items[i], z) && text[z] == (if i + 1 < |s.items| then ',' else ']')
            && (i + 1 < |s.items| ==> Has(text, z + 1, ItemsWritten(s, i + 1) + "]"))
            && p + |ItemsWritten(s, i)| == if i + 1 < |s.items| then z + 1 + |ItemsWritten(s, i + 1)| else z
  {
    hide Has, Written;
    var v := s.items[i];
    var rest := if i + 1 < |s.items| then "," + (ItemsWritten(s, i + 1) + "]") else "]";
    assert ItemsWritten(s, i) + "]" == SpacedWritten(v) + rest;
    HasJoin(text, p, SpacedWritten(v), rest);
    HasJoin(text, p, v.before + Written(v.s), v.after);
    HasJoin(text, p, v.before, Written(v.s));
    HasSlice(text, p + |SpacedWritten(v)|, rest);
    HasChar(text, p + |SpacedWritten(v)|, rest, 0);
    if i + 1 < |s.items| { HasJoin(text, p + |SpacedWritten(v)|, ",", ItemsWritten(s, i + 1) + "]"); }
  }

  lemma ListParts(s: Syntax)
    requires s.List?
    ensures Denoted(s).Array? && |Denoted(s).items| == |s.items|
    ensures forall i :: 0 <= i < |s.items| ==> Denoted(s).items[i] == Denoted(s.items[i].s)
    ensures Valid(s) ==> Space(s.ws) && forall i :: 0 <= i < |s.items| ==> ValidSpaced(s.items[i])
  {
  }

  // The elements from position i on.
  lemma {:induction false} ItemsAccepted(text: Text, p: nat, s: Syntax, i: nat)
    requires s.List? && i < |s.items| && Valid(s) && Has(text, p, ItemsWritten(s, i) + "]")
    ensures Denoted(s).Array? && |Denoted(s).items| == |s.items|
    ensures p <= |text| && At(text, Skip(text, p)) != ']'
    ensures var v := ParseValue(text, Skip(text, p));
            v.Parsed? && v.j == Denoted(s).items[i]
            && ParseItems(text, Skip(text, v.end), Denoted(s).items[..i + 1])
               == Parsed(Denoted(s), p + |ItemsWritten(s, i)| + 1)
    decreases s, 0, |s.items| - i
  {
    hide Has, Skip, Written, ItemsWritten, ParseValue, Valid, Denoted, Stretch;
    ListParts(s);
    ItemSplit(text, p, s, i);
    var z := p + |SpacedWritten(s.items[i])|;
    StretchEnds(text, p, s.items[i], z);
    SpacedAccepted(text, p, s.items[i], z);
    var d := Denoted(s).items;
    if i + 1 < |s.items| {
      ItemsAccepted(text, z + 1, s, i + 1);
      assert d[..i + 1] + [d[i + 1]] == d[..i + 2];
    } else {
      assert d[..i + 1] == d && Array(d) == Denoted(s);
    }
  }

  lemma StretchEnds(text: Text, p: nat, v: Spaced, z: nat)
    requires Stretch(text, p, v, z)
    ensures z < |text| && At(text, z) == text[z]
  {
  }

  lemma {:induction false} ListAccepted(text: Text, p: nat, s: Syntax)
    requires s.List? && Valid(s) && Has(text, p, Written(s))
    ensures p < |text| && ParseArray(text, p) == Parsed(Denoted(s), p + |Written(s)|)
    decreases s, 0, |s.items| + 1
  {
    hide Has, Skip, ItemsWritten, ParseValue, ParseItems, Valid, Denoted;
    ListParts(s);
    Visible(text, p, s);
    if s.items == [] {
      EmptyBrackets(text, p, "[", s.ws, "]");
      assert Denoted(s).items == [];
    } else {
      var tail := ItemsWritten(s, 0) + "]";
      assert Written(s) == "[" + tail;
      HasJoin(text, p, "[", tail);
      ItemsAccepted(text, p + 1, s, 0);
      assert Denoted(s).items[..1] == [Denoted(s).items[0]];
    }
  }

  lemma EmptyBrackets(text: Text, p: nat, open: Text, ws: Text, close: Text)
    requires |open| == 1 == |close| && close[0] > ' ' && Space(ws) && Has(text, p, open + ws + close)
    ensures var z := p + 1 + |ws|; p + 1 <= z < |text| && Skip(text, p + 1) == z && At(text, z) == close[0]
  {
    hide Has, Skip;
    HasJoin(text, p, open + ws, close);
    HasJoin(text, p, open, ws);
    HasChar(text, p + 1 + |ws|, close, 0);
    HasSlice(text, p + 1 + |ws|, close);
    SkipTo(text, p + 1, ws);
  }

  // ---- Objects ----

  ghost function Key(m: Pair): Text {
    "\"" + Texts(m.key) + "\""
  }

  // The member at position i in the text: blanks, key, blanks, colon, value, and what follows.
  lemma PairSplit(text: Text, p: nat, s: Syntax, i: nat)
    requires s.Record? && i < |s.members| && Has(text, p, PairsWritten(s, i) + "}")
    ensures var m := s.members[i]; var a := p + |m.before|; var b := a + |Key(m)|; var c := b + |m.mid|;
            var z := c + 1 + |SpacedWritten(m.value)|;
            && Has(text, p, m.before) && Has(text, a, Key(m)) && Has(text, b, m.mid) && c < |text| && text[c] == ':'
            && Stretch(text, c + 1, m.value, z) && text[z] == (if i + 1 < |s.members| then ',' else '}')
            && (i + 1 < |s.members| ==> Has(text, z + 1, PairsWritten(s, i + 1) + "}"))
            && p + |PairsWritten(s, i)| == if i + 1 < |s.members| then z + 1 + |PairsWritten(s, i + 1)| else z
  {
    hide Has, Key, SpacedWritten, PairWritten, PairsWritten;
    var m := s.members[i];
    var rest := if i + 1 < |s.members| then "," + (PairsWritten(s, i + 1) + "}") else "}";
    var front := m.before + Key(m) + m.mid + ":";
    PairTail(s, i);
    KeyText(m);
    HasJoin(text, p, PairWritten(m), rest);
    HasJoin(text, p, front, SpacedWritten(m.value));
    FrontSplit(text, p, m);
    var q := p + |front|;
    SpacedParts(text, q, m.value);
    var z := q + |SpacedWritten(m.value)|;
    HasSlice(text, z, rest);
    HasChar(text, z, rest, 0);
    if i + 1 < |s.members| { HasJoin(text, z, ",", PairsWritten(s, i + 1) + "}"); }
  }

  lemma PairTail(s: Syntax, i: nat)
    requires s.Record? && i < |s.members|
    ensures PairsWritten(s, i) + "}"
            == PairWritten(s.members[i]) + if i + 1 < |s.members| then "," + (PairsWritten(s, i + 1) + "}") else "}"
    ensures |PairsWritten(s, i)|
            == |PairWritten(s.members[i])| + if i + 1 < |s.members| then 1 + |PairsWritten(s, i + 1)| else 0
  {
    hide PairWritten;
  }

  lemma SpacedParts(text: Text, q: nat, v: Spaced)
    requires Has(text, q, SpacedWritten(v))
    ensures Has(text, q, v.before) && Has(text, q + |v.before|, Written(v.s))
    ensures Has(text, q + |v.before| + |Written(v.s)|, v.after)
    ensures |SpacedWritten(v)| == |v.before| + |Written(v.s)| + |v.after|
  {
    hide Has, Written;
    HasJoin(text, q, v.before + Written(v.s), v.after);
    HasJoin(text, q, v.before, Written(v.s));
  }

  lemma KeyText(m: Pair)
    ensures PairWritten(m) == m.before + Key(m) + m.mid + ":" + SpacedWritten(m.value)
  {
    hide Texts, Written;
  }

  lemma FrontSplit(text: Text, p: nat, m: Pair)
    requires Has(text, p, m.before + Key(m) + m.mid + ":")
    ensures var a := p + |m.before|; var b := a + |Key(m)|; var c := b + |m.mid|;
            Has(text, p, m.before) && Has(text, a, Key(m)) && Has(text, b, m.mid) && c < |text| && text[c] == ':'
  {
    hide Has, Key;
    HasJoin(text, p, m.before + Key(m) + m.mid, ":");
    HasJoin(text, p, m.before + Key(m), m.mid);
    HasJoin(text, p, m.before, Key(m));
    var c := p + |m.before| + |Key(m)| + |m.mid|;
    HasChar(text, c, ":", 0);
    HasSlice(text, c, ":");
  }

  lemma RecordParts(s: Syntax)
    requires s.Record?
    ensures Denoted(s).Object? && |Denoted(s).members| == |s.members|
    ensures forall i :: 0 <= i < |s.members|
              ==> Denoted(s).members[i] == Member(Bytes(s.members[i].key), Denoted(s.members[i].value.s))
    ensures Valid(s) ==> Space(s.ws) && forall i :: 0 <= i < |s.members| ==> ValidPair(s.members[i])
  {
    hide Bytes;
  }

  // One member.
  lemma {:induction false} PairAccepted(text: Text, p: nat, m: Pair, z: nat)
    requires ValidPair(m)
    requires var a := p + |m.before|; var b := a + |Key(m)|; var c := b + |m.mid|;
             && Has(text, p, m.before) && Has(text, a, Key(m)) && Has(text, b, m.mid) && c < |text| && text[c] == ':'
             && Stretch(text, c + 1, m.value, z)
    ensures p <= |text| && At(text, Skip(text, p)) != '}'
    ensures var v := ParseMember(text, Skip(text, p));
            v.OneMember? && v.m == Member(Bytes(m.key), Denoted(m.value.s)) && Skip(text, v.end) == z
    decreases m
  {
    hide Has, Skip, Written, ParseValue, Stretch, StringAt, IsPiece;
    var a := p + |m.before|;
    var b := a + |Key(m)|;
    var c := b + |m.mid|;
    LiteralRead(text, a, m.key);
    SkipTo(text, p, m.before);
    SkipTo(text, b, m.mid);
    SpacedAccepted(text, c + 1, m.value, z);
  }

  // The members from position i on.
  lemma {:induction false} PairsAccepted(text: Text, p: nat, s: Syntax, i: nat)
    requires s.Record? && i < |s.members| && Valid(s) && Has(text, p, PairsWritten(s, i) + "}")
    ensures Denoted(s).Object? && |Denoted(s).members| == |s.members|
    ensures p <= |text| && At(text, Skip(text, p)) != '}'
    ensures var m := ParseMember(text, Skip(text, p));
            m.OneMember? && m.m == Denoted(s).members[i]
            && ParseMembers(text, Skip(text, m.end), Denoted(s).members[..i + 1])
               == Parsed(Denoted(s), p + |PairsWritten(s, i)| + 1)
    decreases s, 0, |s.members| - i
  {
    hide Has, Skip, Written, PairsWritten, ParseMember, Valid, Denoted, Stretch, Key, ValidPair, Bytes;
    RecordParts(s);
    PairSplit(text, p, s, i);
    var m := s.members[i];
    var z := p + |m.before| + |Key(m)| + |m.mid| + 1 + |SpacedWritten(m.value)|;
    StretchEnds(text, p + |m.before| + |Key(m)| + |m.mid| + 1, m.value, z);
    PairAccepted(text, p, m, z);
    var d := Denoted(s).members;
    if i + 1 < |s.members| {
      PairsAccepted(text, z + 1, s, i + 1);
      assert d[..i + 1] + [d[i + 1]] == d[..i + 2];
    } else {
      assert d[..i + 1] == d && Object(d) == Denoted(s);
    }
  }

  lemma {:induction false} RecordAccepted(text: Text, p: nat, s: Syntax)
    requires s.Record? && Valid(s) && Has(text, p, Written(s))
    ensures p < |text| && ParseObject(text, p) == Parsed(Denoted(s), p + |Written(s)|)
    decreases s, 0, |s.members| + 1
  {
    hide Has, Skip, PairsWritten, ParseMember, ParseMembers, Valid, Denoted;
    RecordParts(s);
    Visible(text, p, s);
    if s.members == [] {
      EmptyBrackets(text, p, "{", s.ws, "}");
      assert Denoted(s).members == [];
    } else {
      var tail := PairsWritten(s, 0) + "}";
      assert Written(s) == "{" + tail;
      HasJoin(text, p, "{", tail);
      PairsAccepted(text, p + 1, s, 0);
      assert Denoted(s).members[..1] == [Denoted(s).members[0]];
    }
  }

  // ---- Texts ----

  // A JSON text, blanks around it, is parsed to the value it stands for, and to its end.
  lemma TextAccepted(v: Spaced)
    requires ValidSpaced(v)
    ensures Parse(SpacedWritten(v), true) == Parsed(Denoted(v.s), |SpacedWritten(v)|)
  {
    hide Has, Skip, Written, ParseValue;
    var text := SpacedWritten(v);
    var a := |v.before|;
    var e := a + |Written(v.s)|;
    assert text == v.before + Written(v.s) + v.after;
    WholeText(text);
    HasJoin(text, 0, v.before + Written(v.s), v.after);
    HasJoin(text, 0, v.before, Written(v.s));
    Visible(text, a, v.s);
    SkipTo(text, 0, v.before);
    if v.after != [] { HasChar(text, e, v.after, 0); }
    Accepted(text, a, v.s);
    SkipOver(text, e, v.after);
    SkipEnd(text);
  }

  lemma WholeText(text: Text)
    ensures Has(text, 0, text)
  {
    assert text[0..0 + |text|] == text;
  }

  lemma SkipEnd(text: Text)
    ensures Skip(text, |text|) == |text| && At(text, |text|) == '\0'
  {
  }
}
