// JSON texts as RFC 8259 has them, sections 2 to 7, numbers being integers: the texts and the
// values they stand for. Strings are bytes of UTF-8, section 3 of RFC 3629.
module JsonGrammar {
  import opened JsonValues
  import opened JsonText

  // ---- UTF-8 and UTF-16 ----

  // The bytes of a code point, read byte by byte.
  ghost predicate Encodes(s: Text, cp: nat) {
    match |s|
    case 1 => cp < 0x80 && s[0] as nat == cp
    case 2 => 0x80 <= cp < 0x800 && Lead(s[0], 0xC0, 0xDF) && Trail(s[1]) && cp == 64 * (s[0] as nat - 0xC0) + Low(s[1])
    case 3 =>
      && 0x800 <= cp < 0x10000 && Lead(s[0], 0xE0, 0xEF) && Trail(s[1]) && Trail(s[2])
      && cp == 4096 * (s[0] as nat - 0xE0) + 64 * Low(s[1]) + Low(s[2])
    case 4 =>
      && 0x10000 <= cp < 0x110000 && Lead(s[0], 0xF0, 0xF7) && Trail(s[1]) && Trail(s[2]) && Trail(s[3])
      && cp == 262144 * (s[0] as nat - 0xF0) + 4096 * Low(s[1]) + 64 * Low(s[2]) + Low(s[3])
    case _ => false
  }

  ghost predicate Lead(c: char, low: nat, high: nat) {
    low <= c as nat <= high
  }

  ghost predicate Trail(c: char) {
    0x80 <= c as nat <= 0xBF
  }

  ghost function Low(c: char): nat
    requires Trail(c)
  {
    c as nat - 0x80
  }

  // Code points that are no surrogates.
  ghost predicate Scalar(cp: nat) {
    cp < 0x110000 && !(0xD800 <= cp < 0xE000)
  }

  ghost predicate DigitIs(c: char, d: nat) {
    d < 16 && (c == "0123456789abcdef"[d] || c == "0123456789ABCDEF"[d])
  }

  // Four hexadecimal digits of a unit.
  ghost predicate HexOf(h: Text, u: nat) {
    && u < 0x10000 && |h| == 4 && DigitIs(h[0], u / 4096) && DigitIs(h[1], u / 256 % 16) && DigitIs(h[2], u / 16 % 16)
    && DigitIs(h[3], u % 16)
  }

  // A code point escaped: one UTF-16 unit, or a pair of surrogates.
  ghost predicate EscapeOf(t: Text, cp: nat) {
    if cp < 0x10000 then |t| == 6 && t[..2] == "\\u" && HexOf(t[2..], cp) else
      && |t| == 12 && t[..2] == "\\u" && HexOf(t[2..6], 0xD800 + (cp - 0x10000) / 0x400)
      && t[6..8] == "\\u" && HexOf(t[8..], 0xDC00 + (cp - 0x10000) % 0x400)
  }

  // ---- Section 7: strings ----

  const SHORT := "\"\\/bfnrt"
  const MEANT := "\"\\/\U{8}\U{c}\n\r\t"

  // One character of a literal, and the bytes it stands for. A zero cannot stand in a C
  // string.
  datatype Piece = Piece(text: Text, bytes: Text)

  ghost predicate IsPiece(c: Piece) {
    || (|c.text| == 1 && ' ' <= c.text[0] && c.text[0] != '\"' && c.text[0] != '\\' && c.bytes == c.text)
    || (exists k: nat :: k < |SHORT| && c.text == ['\\', SHORT[k]] && c.bytes == [MEANT[k]])
    || (exists cp :: 0 < cp && Scalar(cp) && EscapeOf(c.text, cp) && Encodes(c.bytes, cp))
  }

  ghost function Texts(ps: seq<Piece>): Text {
    if ps == [] then [] else ps[0].text + Texts(ps[1..])
  }

  ghost function Bytes(ps: seq<Piece>): Text {
    if ps == [] then [] else ps[0].bytes + Bytes(ps[1..])
  }

  // ---- Sections 2 to 6: values ----

  datatype Syntax =
    | Name(j: Json)
    | Numeral(minus: bool, digits: Text)
    | Literal(ps: seq<Piece>)
    | List(ws: Text, items: seq<Spaced>)
    | Record(ws: Text, members: seq<Pair>)

  datatype Spaced = Spaced(before: Text, s: Syntax, after: Text)

  datatype Pair = Pair(before: Text, key: seq<Piece>, mid: Text, value: Spaced)

  ghost predicate Space(s: Text) {
    forall i :: 0 <= i < |s| ==> s[i] in {' ', '\t', '\n', '\r'}
  }

  ghost predicate AllPieces(ps: seq<Piece>) {
    forall i :: 0 <= i < |ps| ==> IsPiece(ps[i])
  }

  // No sign of its own and no zero in front.
  ghost predicate IsDigits(s: Text) {
    s != [] && (forall i :: 0 <= i < |s| ==> '0' <= s[i] <= '9') && (s[0] == '0' ==> |s| == 1)
  }

  ghost function Amount(minus: bool, digits: Text): int {
    if !IsDigits(digits) then 0 else
      var n: int := DigitsValue(digits);
      if minus then -n else n
  }

  ghost predicate Valid(s: Syntax) {
    match s
    case Name(j) => j.Null? || j.Bool?
    case Numeral(minus, digits) => IsDigits(digits) && Int32(Amount(minus, digits))
    case Literal(ps) => AllPieces(ps)
    case List(ws, items) => Space(ws) && forall i :: 0 <= i < |items| ==> ValidSpaced(items[i])
    case Record(ws, members) => Space(ws) && forall i :: 0 <= i < |members| ==> ValidPair(members[i])
  }

  ghost predicate ValidSpaced(v: Spaced) {
    Space(v.before) && Space(v.after) && Valid(v.s)
  }

  ghost predicate ValidPair(m: Pair) {
    Space(m.before) && AllPieces(m.key) && Space(m.mid) && ValidSpaced(m.value)
  }

  ghost function Written(s: Syntax): Text
    decreases s, 1
  {
    match s
    case Name(Null) => "null"
    case Name(j) => if j == Bool(true) then "true" else "false"
    case Numeral(minus, digits) => (if minus then "-" else "") + digits
    case Literal(ps) => "\"" + Texts(ps) + "\""
    case List(ws, items) => "[" + (if items == [] then ws else ItemsWritten(s, 0)) + "]"
    case Record(ws, members) => "{" + (if members == [] then ws else PairsWritten(s, 0)) + "}"
  }

  ghost function SpacedWritten(v: Spaced): Text {
    v.before + Written(v.s) + v.after
  }

  // The elements from position i on, commas between them.
  ghost function ItemsWritten(s: Syntax, i: nat): Text
    requires s.List? && i < |s.items|
    decreases s, 0, |s.items| - i
  {
    SpacedWritten(s.items[i]) + if i + 1 < |s.items| then "," + ItemsWritten(s, i + 1) else ""
  }

  ghost function PairWritten(m: Pair): Text {
    m.before + ("\"" + Texts(m.key) + "\"") + m.mid + ":" + SpacedWritten(m.value)
  }

  ghost function PairsWritten(s: Syntax, i: nat): Text
    requires s.Record? && i < |s.members|
    decreases s, 0, |s.members| - i
  {
    PairWritten(s.members[i]) + if i + 1 < |s.members| then "," + PairsWritten(s, i + 1) else ""
  }

  ghost function Denoted(s: Syntax): Json {
    match s
    case Name(j) => j
    case Numeral(minus, digits) => Number(Amount(minus, digits))
    case Literal(ps) => String(Bytes(ps))
    case List(_, items) => Array(seq(|items|, i requires 0 <= i < |items| => Denoted(items[i].s)))
    case Record(_, ms) =>
      Object(seq(|ms|, i requires 0 <= i < |ms| => Member(Bytes(ms[i].key), Denoted(ms[i].value.s))))
  }
}
