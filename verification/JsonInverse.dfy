// What is printed is a JSON text that stands for the tree, so that parsing it gives the tree
// back (component/cJSON/cJSON.c).
module JsonInverse {
  import opened JsonValues
  import opened JsonText
  import opened JsonParse
  import opened JsonGrammar
  import opened JsonAccepts
  import opened Sequences

  // ---- The syntax of a printed tree ----

  ghost function PiecesOf(s: Text): (r: seq<Piece>)
    ensures |r| == |s|
  {
    seq(|s|, i requires 0 <= i < |s| => Piece(Escaped(s[i]), [s[i]]))
  }

  ghost function SyntaxOf(j: Json, depth: nat, fmt: bool): Syntax
    decreases j, 1
  {
    match j
    case Number(n) => Numeral(n < 0, Decimal(if n < 0 then -n else n))
    case String(s) => Literal(PiecesOf(s))
    case Array(items) => List("", seq(|items|, i requires 0 <= i < |items| => ItemSyntax(j, i, depth, fmt)))
    case Object(ms) =>
      Record(Opt(fmt, "\n" + Tabs(depth - 1)), seq(|ms|, i requires 0 <= i < |ms| => PairSyntax(j, i, depth, fmt)))
    case _ => Name(j)
  }

  ghost function ItemSyntax(j: Json, i: nat, depth: nat, fmt: bool): Spaced
    requires j.Array? && i < |j.items|
    decreases j, 0
  {
    Spaced(Opt(fmt && i > 0, " "), SyntaxOf(j.items[i], depth + 1, fmt), "")
  }

  ghost function PairSyntax(j: Json, i: nat, depth: nat, fmt: bool): Pair
    requires j.Object? && i < |j.members|
    decreases j, 0
  {
    var after := if i + 1 == |j.members| then Opt(fmt, "\n") + Opt(fmt, Tabs(depth)) else "";
    Pair(Opt(fmt, "\n") + Opt(fmt, Tabs(depth + 1)), PiecesOf(j.members[i].key), "",
         Spaced(Opt(fmt, "\t"), SyntaxOf(j.members[i].value, depth + 1, fmt), after))
  }

  // ---- Strings and numbers ----

  lemma HexPrinted(d: nat)
    requires d < 16
    ensures DigitIs(HexDigit(d), d)
  {
    if d < 10 {
      assert "0123456789abcdef"[d] == '0' + (d as char);
    } else {
      assert "0123456789abcdef"[d] == 'a' + ((d - 10) as char);
    }
  }

  // A control character is printed as an escape of itself.
  lemma ControlPiece(c: char)
    requires '\0' < c <= '\U{1f}'
    ensures IsPiece(Piece("\\u00" + [HexDigit(c as nat / 16), HexDigit(c as nat % 16)], [c]))
  {
    hide HexDigit, DigitIs;
    var t := "\\u00" + [HexDigit(c as nat / 16), HexDigit(c as nat % 16)];
    HexPrinted(c as nat / 16);
    HexPrinted(c as nat % 16);
    HexPrinted(0);
    ZeroDigit();
    assert t[2..] == "00" + [HexDigit(c as nat / 16), HexDigit(c as nat % 16)];
    assert HexOf(t[2..], c as nat) && t[..2] == "\\u";
    assert Scalar(c as nat) && EscapeOf(t, c as nat) && Encodes([c], c as nat);
  }

  lemma ZeroDigit()
    ensures HexDigit(0) == '0'
  {
  }

  // Every character is printed as one of a literal that stands for it.
  lemma EscapedPiece(c: char)
    requires '\0' < c <= '\U{ff}'
    ensures IsPiece(Piece(Escaped(c), [c]))
  {
    hide EscapeOf, Encodes, HexDigit;
    if c == '\"' {
      ShortPiece(0);
    } else if c == '\\' {
      ShortPiece(1);
    } else if c == '\U{8}' {
      ShortPiece(3);
    } else if c == '\U{c}' {
      ShortPiece(4);
    } else if c == '\n' {
      ShortPiece(5);
    } else if c == '\r' {
      ShortPiece(6);
    } else if c == '\t' {
      ShortPiece(7);
    } else if c <= '\U{1f}' {
      ControlPiece(c);
    }
  }

  lemma ShortPiece(k: nat)
    requires k < |SHORT|
    ensures IsPiece(Piece(['\\', SHORT[k]], [MEANT[k]]))
  {
  }

  lemma {:induction false} PiecesPrinted(s: Text)
    requires ByteText(s)
    ensures Texts(PiecesOf(s)) == EscapedText(s) && Bytes(PiecesOf(s)) == s && AllPieces(PiecesOf(s))
    decreases s
  {
    hide IsPiece, Escaped;
    forall i | 0 <= i < |s| ensures IsPiece(PiecesOf(s)[i]) { EscapedPiece(s[i]); }
    if s != [] {
      PiecesPrinted(s[1..]);
      assert PiecesOf(s)[1..] == PiecesOf(s[1..]);
      assert s == [s[0]] + s[1..];
    }
  }

  lemma {:induction false} DecimalDigits(n: nat)
    ensures IsDigits(Decimal(n)) && DigitsValue(Decimal(n)) == n
  {
    DecimalValue(n);
  }

  lemma {:induction false} TabsSpace(n: int)
    ensures Space(Tabs(n))
  {
    if n > 0 { TabsSpace(n - 1); }
  }

  // ---- Values ----

  ghost predicate Prints(j: Json, depth: nat, fmt: bool) {
    var s := SyntaxOf(j, depth, fmt);
    Valid(s) && Written(s) == Print(j, depth, fmt) && Denoted(s) == j
  }

  // What is printed is a text of the grammar that stands for the value.
  lemma {:induction false} PrintedSyntax(j: Json, depth: nat, fmt: bool)
    requires Printable(j)
    ensures Prints(j, depth, fmt)
    decreases j
  {
    hide Prints, Printable;
    if j.Array? {
      forall i | 0 <= i < |j.items| ensures Prints(j.items[i], depth + 1, fmt) {
        PrintableItem(j, i);
        PrintedSyntax(j.items[i], depth + 1, fmt);
      }
      ArrayPrinted(j, depth, fmt);
    } else if j.Object? {
      forall i | 0 <= i < |j.members| ensures Prints(j.members[i].value, depth + 1, fmt) {
        PrintableItem(j, i);
        PrintedSyntax(j.members[i].value, depth + 1, fmt);
      }
      ObjectPrinted(j, depth, fmt);
    } else {
      ScalarPrinted(j, depth, fmt);
    }
  }

  lemma ScalarPrinted(j: Json, depth: nat, fmt: bool)
    requires Printable(j) && !j.Array? && !j.Object?
    ensures Prints(j, depth, fmt)
  {
    match j
    case Number(n) => NumberPrinted(j, n, depth, fmt);
    case String(s) => StringPrinted(j, s, depth, fmt);
    case _ =>
  }

  lemma NumberPrinted(j: Json, n: int, depth: nat, fmt: bool)
    requires Printable(j) && j == Number(n)
    ensures Prints(j, depth, fmt)
  {
    hide Decimal, IsDigits;
    DecimalDigits(if n < 0 then -n else n);
  }

  lemma StringPrinted(j: Json, s: Text, depth: nat, fmt: bool)
    requires Printable(j) && j == String(s)
    ensures Prints(j, depth, fmt)
  {
    hide PiecesOf, Texts, EscapedText, AllPieces;
    PiecesPrinted(s);
  }

  lemma ArraySyntax(j: Json, depth: nat, fmt: bool)
    requires j.Array?
    ensures var s := SyntaxOf(j, depth, fmt);
            s.List? && s.ws == "" && |s.items| == |j.items|
            && forall i :: 0 <= i < |j.items| ==> s.items[i] == ItemSyntax(j, i, depth, fmt)
  {
  }

  lemma ArrayPrinted(j: Json, depth: nat, fmt: bool)
    requires j.Array? && forall i :: 0 <= i < |j.items| ==> Prints(j.items[i], depth + 1, fmt)
    ensures Prints(j, depth, fmt)
  {
    hide PrintItems, ItemsWritten, SyntaxOf;
    var s := SyntaxOf(j, depth, fmt);
    ArraySyntax(j, depth, fmt);
    forall i | 0 <= i < |j.items| ensures ValidSpaced(s.items[i]) && Denoted(s.items[i].s) == j.items[i] {
      assert Prints(j.items[i], depth + 1, fmt);
    }
    ListMeans(s, j.items);
    if j.items != [] { ItemsPrinted(j, 0, depth, fmt); }
  }

  lemma ListMeans(s: Syntax, items: seq<Json>)
    requires s.List? && Space(s.ws) && |s.items| == |items|
    requires forall i :: 0 <= i < |items| ==> ValidSpaced(s.items[i]) && Denoted(s.items[i].s) == items[i]
    ensures Valid(s) && Denoted(s) == Array(items)
  {
    hide Space;
    assert Denoted(s).items == items;
  }

  lemma {:induction false} ItemsPrinted(j: Json, i: nat, depth: nat, fmt: bool)
    requires j.Array? && i < |j.items| && forall i :: 0 <= i < |j.items| ==> Prints(j.items[i], depth + 1, fmt)
    ensures var s := SyntaxOf(j, depth, fmt);
            && s.List? && |s.items| == |j.items|
            && ItemsWritten(s, i) == Opt(fmt && i > 0, " ") + PrintItems(j, i, depth + 1, fmt)
    decreases |j.items| - i
  {
    hide Print, Written, Denoted, Valid, SyntaxOf;
    ArraySyntax(j, depth, fmt);
    var s := SyntaxOf(j, depth, fmt);
    var before, v := Opt(fmt && i > 0, " "), Print(j.items[i], depth + 1, fmt);
    assert Prints(j.items[i], depth + 1, fmt);
    assert SpacedWritten(s.items[i]) == before + v + "" == before + v;
    if i + 1 < |j.items| {
      ItemsPrinted(j, i + 1, depth, fmt);
      Regroup(before, v, ",", Opt(fmt, " ") + PrintItems(j, i + 1, depth + 1, fmt));
      assert PrintItems(j, i, depth + 1, fmt) == v + ("," + (Opt(fmt, " ") + PrintItems(j, i + 1, depth + 1, fmt)));
    }
  }

  lemma ObjectSyntax(j: Json, depth: nat, fmt: bool)
    requires j.Object?
    ensures var s := SyntaxOf(j, depth, fmt);
            s.Record? && s.ws == Opt(fmt, "\n" + Tabs(depth - 1)) && |s.members| == |j.members|
            && forall i :: 0 <= i < |j.members| ==> s.members[i] == PairSyntax(j, i, depth, fmt)
  {
  }

  lemma PairMeans(j: Json, i: nat, depth: nat, fmt: bool)
    requires j.Object? && i < |j.members| && Prints(j.members[i].value, depth + 1, fmt) && ByteText(j.members[i].key)
    ensures var m := PairSyntax(j, i, depth, fmt);
            ValidPair(m) && Bytes(m.key) == j.members[i].key && Denoted(m.value.s) == j.members[i].value
  {
    hide SyntaxOf, Valid, Denoted, Written, PiecesOf, Tabs, Print;
    PiecesPrinted(j.members[i].key);
    TabsSpace(depth);
    TabsSpace(depth + 1);
  }

  lemma ObjectPrinted(j: Json, depth: nat, fmt: bool)
    requires j.Object? && forall i :: 0 <= i < |j.members| ==> Prints(j.members[i].value, depth + 1, fmt)
    requires Printable(j)
    ensures Prints(j, depth, fmt)
  {
    hide PrintMembers, PairsWritten, SyntaxOf, PairSyntax, ValidPair, Bytes, Tabs;
    var s := SyntaxOf(j, depth, fmt);
    ObjectSyntax(j, depth, fmt);
    forall i | 0 <= i < |j.members|
      ensures ValidPair(s.members[i]) && Member(Bytes(s.members[i].key), Denoted(s.members[i].value.s)) == j.members[i]
    {
      PairMeans(j, i, depth, fmt);
    }
    TabsSpace(depth - 1);
    RecordMeans(s, j.members);
    if j.members != [] {
      PairsPrinted(j, 0, depth, fmt);
      assert Print(j, depth, fmt)
             == "{" + (Opt(fmt, "\n") + PrintMembers(j, 0, depth + 1, fmt) + Opt(fmt, Tabs(depth))) + "}";
    }
  }

  lemma RecordMeans(s: Syntax, ms: seq<Member>)
    requires s.Record? && Space(s.ws) && |s.members| == |ms|
    requires forall i :: 0 <= i < |ms| ==> ValidPair(s.members[i])
                                           && Member(Bytes(s.members[i].key), Denoted(s.members[i].value.s)) == ms[i]
    ensures Valid(s) && Denoted(s) == Object(ms)
  {
    hide Space, Bytes, ValidPair;
    assert Denoted(s).members == ms;
  }

  lemma {:induction false} PairsPrinted(j: Json, i: nat, depth: nat, fmt: bool)
    requires j.Object? && i < |j.members| && Printable(j)
    requires forall i :: 0 <= i < |j.members| ==> Prints(j.members[i].value, depth + 1, fmt)
    ensures var s := SyntaxOf(j, depth, fmt);
            && s.Record? && |s.members| == |j.members|
            && PairsWritten(s, i) == Opt(fmt, "\n") + PrintMembers(j, i, depth + 1, fmt) + Opt(fmt, Tabs(depth))
    decreases |j.members| - i
  {
    hide Print, Written, Denoted, Valid, SyntaxOf, Tabs, PairSyntax, PairsWritten, PrintMembers;
    ObjectSyntax(j, depth, fmt);
    var s := SyntaxOf(j, depth, fmt);
    var key, v := Quoted(j.members[i].key), Print(j.members[i].value, depth + 1, fmt);
    var a, t, b, e := Opt(fmt, "\n"), Opt(fmt, Tabs(depth + 1)), Opt(fmt, "\t"), Opt(fmt, Tabs(depth));
    PairText(j, i, depth, fmt);
    PairsStep(s, i);
    MembersStep(j, i, depth + 1, fmt);
    if i + 1 < |j.members| {
      PairsPrinted(j, i + 1, depth, fmt);
      MorePair(a, t, key, b, v, e, PrintMembers(j, i + 1, depth + 1, fmt));
    } else {
      LastPair(a, t, key, b, v, e);
    }
  }

  lemma PairText(j: Json, i: nat, depth: nat, fmt: bool)
    requires j.Object? && i < |j.members| && Prints(j.members[i].value, depth + 1, fmt) && Printable(j)
    ensures var after := if i + 1 == |j.members| then Opt(fmt, "\n") + Opt(fmt, Tabs(depth)) else "";
            PairWritten(PairSyntax(j, i, depth, fmt))
            == Opt(fmt, "\n") + Opt(fmt, Tabs(depth + 1)) + Quoted(j.members[i].key) + "" + ":"
               + (Opt(fmt, "\t") + Print(j.members[i].value, depth + 1, fmt) + after)
  {
    hide SyntaxOf, Valid, Denoted, Written, PiecesOf, Tabs, Print, Texts;
    PiecesPrinted(j.members[i].key);
  }

  lemma PairsStep(s: Syntax, i: nat)
    requires s.Record? && i < |s.members|
    ensures PairsWritten(s, i)
            == PairWritten(s.members[i]) + if i + 1 < |s.members| then "," + PairsWritten(s, i + 1) else ""
  {
    hide PairWritten;
  }

  lemma MembersStep(j: Json, i: nat, depth: nat, fmt: bool)
    requires j.Object? && i < |j.members|
    ensures var m := j.members[i];
            PrintMembers(j, i, depth, fmt)
            == Opt(fmt, Tabs(depth)) + Quoted(m.key) + ":" + Opt(fmt, "\t") + Print(m.value, depth, fmt)
               + (if i + 1 < |j.members| then "," else "") + Opt(fmt, "\n") + PrintMembers(j, i + 1, depth, fmt)
    ensures PrintMembers(j, |j.members|, depth, fmt) == ""
  {
    hide Print, Tabs, Quoted;
  }

  lemma LastPair(a: Text, t: Text, k: Text, b: Text, v: Text, e: Text)
    ensures a + t + k + "" + ":" + (b + v + (a + e)) + "" == a + (t + k + ":" + b + v + "" + a + "") + e
  {
    var x := t + k + ":";
    assert a + t + k + "" + ":" == a + x;
    Regroup(a, x, b + v, a + e);
    assert t + k + ":" + b + v + "" + a + "" == x + (b + v) + a;
    assert a + (x + (b + v) + a) + e == a + x + (b + v) + (a + e);
  }

  lemma MorePair(a: Text, t: Text, k: Text, b: Text, v: Text, e: Text, n: Text)
    ensures a + t + k + "" + ":" + (b + v + "") + ("," + (a + n + e)) == a + (t + k + ":" + b + v + "," + a + n) + e
  {
    var x := t + k + ":";
    assert a + t + k + "" + ":" == a + x && b + v + "" == b + v;
    assert t + k + ":" + b + v + "," + a + n == x + (b + v) + ("," + (a + n));
    assert "," + (a + n + e) == "," + (a + n) + e;
    assert a + x + (b + v) + ("," + (a + n) + e) == a + (x + (b + v) + ("," + (a + n))) + e;
  }

  // ---- The round trip ----

  // A value printed anywhere in a text is read back, whatever follows that cannot continue a
  // number.
  lemma ParsePrinted(text: Text, p: nat, j: Json, depth: nat, fmt: bool)
    requires Printable(j) && Has(text, p, Print(j, depth, fmt)) && Delimits(At(text, p + |Print(j, depth, fmt)|))
    ensures p < |text| && ParseValue(text, p) == Parsed(j, p + |Print(j, depth, fmt)|)
  {
    hide Print, ParseValue, Written, Denoted, Valid, SyntaxOf, Has;
    PrintedSyntax(j, depth, fmt);
    Accepted(text, p, SyntaxOf(j, depth, fmt));
  }

  // Parsing what cJSON_Print (formatted) or cJSON_PrintUnformatted wrote gives the tree
  // back, member order included, and consumes the whole text.
  lemma PrintParse(j: Json, fmt: bool)
    requires Printable(j)
    ensures Parse(Print(j, 0, fmt), true) == Parsed(j, |Print(j, 0, fmt)|)
  {
    hide Print, ParseValue, Written, Denoted, Valid, SyntaxOf;
    PrintedSyntax(j, 0, fmt);
    var v := Spaced("", SyntaxOf(j, 0, fmt), "");
    TextAccepted(v);
    assert SpacedWritten(v) == Print(j, 0, fmt);
  }
}
