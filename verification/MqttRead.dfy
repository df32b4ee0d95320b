// Reading packets from a byte stream (component/mqtt/MQTTPacket.c): the blocking reader
// and the one that can be called again and again.
module MqttRead {
  import opened Bytes
  import opened MqttLength

  const MAX_LENGTH_BYTES := 4

  // ---- Packets on the stream ----

  // A whole packet in front: a header byte, a length field of at most four bytes, and as
  // many bytes as the field says.
  predicate Packet(s: seq<byte>) {
    && s != [] && HasLen(s[1..], MAX_LENGTH_BYTES)
    && 1 + LenSize(s[1..], MAX_LENGTH_BYTES) + LenValue(s[1..], MAX_LENGTH_BYTES) <= |s|
  }

  function Start(s: seq<byte>): (n: nat)
    requires Packet(s)
  {
    1 + LenSize(s[1..], MAX_LENGTH_BYTES)
  }

  function Rem(s: seq<byte>): nat
    requires Packet(s)
  {
    LenValue(s[1..], MAX_LENGTH_BYTES)
  }

  // Header, length field put back in its shortest form, and content.
  function Stored(s: seq<byte>): seq<byte>
    requires Packet(s)
  {
    [s[0]] + EncodeLen(Rem(s)) + s[Start(s)..Start(s) + Rem(s)]
  }

  predicate Fits(s: seq<byte>, buflen: nat)
    requires Packet(s)
  {
    1 + |EncodeLen(Rem(s))| + Rem(s) <= buflen
  }

  function Type(s: seq<byte>): nat
    requires Packet(s)
  {
    s[0] / 16
  }

  // What the length field adds up to, complete or cut off: all its bytes, four at most.
  function FieldSum(s: seq<byte>, k: nat): nat {
    if k == 0 || s == [] then 0
    else s[0] % 128 + if s[0] >= 128 then 128 * FieldSum(s[1..], k - 1) else 0
  }

  // How many bytes of the field are read then.
  function FieldUsed(s: seq<byte>, k: nat): (n: nat)
    ensures n <= k && n <= |s|
  {
    if k == 0 || s == [] then 0 else 1 + if s[0] >= 128 then FieldUsed(s[1..], k - 1) else 0
  }

  lemma {:induction false} FieldSumWhole(s: seq<byte>, k: nat)
    requires HasLen(s, k)
    ensures FieldSum(s, k) == LenValue(s, k)
  {
    if s[0] >= 128 { FieldSumWhole(s[1..], k - 1); }
  }

  // Header and length field in shortest form: written to the buffer before its size is looked at.
  function Front(s: seq<byte>): (r: seq<byte>)
    requires s != []
    ensures |r| > 1
  {
    [s[0]] + EncodeLen(FieldSum(s[1..], MAX_LENGTH_BYTES))
  }

  // What the blocking reader takes for a packet that fits.
  ghost predicate Taken(s: seq<byte>, buflen: nat) {
    s != [] &&
    var n, value := FieldUsed(s[1..], MAX_LENGTH_BYTES), FieldSum(s[1..], MAX_LENGTH_BYTES);
    |Front(s)| + value <= buflen && 1 + n + value <= |s|
  }

  lemma {:induction false} UsedWhole(s: seq<byte>, k: nat)
    requires HasLen(s, k)
    ensures FieldUsed(s, k) == LenSize(s, k) && s[FieldUsed(s, k) - 1] < 128
  {
    if s[0] >= 128 { UsedWhole(s[1..], k - 1); }
  }

  // A field that is none is cut off or too long.
  lemma {:induction false} UsedBroken(s: seq<byte>, k: nat)
    requires !HasLen(s, k)
    ensures FieldUsed(s, k) == (if |s| < k then |s| else k) && forall i :: 0 <= i < FieldUsed(s, k) ==> s[i] >= 128
    ensures FieldSum(s, k) == 0 <==> forall i :: 0 <= i < FieldUsed(s, k) ==> s[i] == 128
  {
    if k > 0 && s != [] {
      UsedBroken(s[1..], k - 1);
      var n := FieldUsed(s[1..], k - 1);
      assert forall i :: 0 < i < 1 + n ==> s[i] == s[1..][i - 1];
    }
  }

  // How far into memory reading from a stream can write, the buffer having `buflen` bytes.
  function Touched(s: seq<byte>, buflen: nat): nat {
    if s == [] then 0 else
      var n, value := |Front(s)|, FieldSum(s[1..], MAX_LENGTH_BYTES);
      if n + value <= buflen then n + value else n
  }

  // What is written stays in the buffer if and only if header and length field do, which
  // a packet that fits and a buffer of five bytes ensure.
  lemma WritesInside(s: seq<byte>, buflen: nat)
    requires Packet(s)
    ensures Front(s) == [s[0]] + EncodeLen(Rem(s))
    ensures Touched(s, buflen) <= buflen <==> 1 + |EncodeLen(Rem(s))| <= buflen
    ensures Fits(s, buflen) || buflen >= 5 ==> Touched(s, buflen) <= buflen
    ensures Fits(s, buflen) ==> Touched(s, buflen) == |Stored(s)|
    ensures !Fits(s, buflen) ==> Touched(s, buflen) == 1 + |EncodeLen(Rem(s))|
    ensures 1 < 1 + |EncodeLen(Rem(s))| <= Touched(s, buflen)
  {
    hide EncodeLen, HasLen, LenValue, LenSize, FieldSum;
    FieldSumWhole(s[1..], MAX_LENGTH_BYTES);
    RemBound(s);
  }

  // A PUBLISH of 128 bytes does not fit two bytes; refusing it writes three.
  lemma WritesBehind()
    ensures var s: seq<byte> := [0x30, 0x80, 1] + seq(128, _ => 0);
            Packet(s) && !Fits(s, 2) && Touched(s, 2) == 3
  {
    var s: seq<byte> := [0x30, 0x80, 1] + seq(128, _ => 0);
    assert s[1..][0] == 0x80 && s[1..][1..][0] == 1;
    assert HasLen(s[1..][1..], 3) && LenValue(s[1..][1..], 3) == 1 && LenSize(s[1..][1..], 3) == 1;
    assert HasLen(s[1..], 4) && LenValue(s[1..], 4) == 128 && LenSize(s[1..], 4) == 2;
    SizeSteps(128);
    WritesInside(s, 2);
  }

  // What the buffer and the return value are after reading a packet.
  ghost predicate ReadBack(s: seq<byte>, rc: int, buf: array<byte>)
    requires Packet(s)
    reads buf
  {
    |Stored(s)| <= buf.Length && rc == Type(s) && buf[..|Stored(s)|] == Stored(s)
  }

  // ---- MQTTPacket_read ----

  // A source that waits until it has what it is asked for, or is at its end.
  class Source {
    var data: seq<byte>

    constructor (data: seq<byte>)
      ensures this.data == data
    {
      this.data := data;
    }

    method Get(count: nat) returns (chunk: seq<byte>)
      modifies this
      ensures chunk == old(data)[..if count <= |old(data)| then count else |old(data)|]
      ensures data == old(data)[|chunk|..]
    {
      var n := if count <= |data| then count else |data|;
      chunk, data := data[..n], data[n..];
    }
  }

  // Inside a length field: `len` bytes are behind, all with the continuation bit, and
  // make up `value`.
  ghost predicate Decoding(s: seq<byte>, len: nat, value: nat, multiplier: nat) {
    && HasLen(s, 4) && len < 4 && len <= |s| && HasLen(s[len..], 4 - len)
    && LenValue(s, 4) == value + multiplier * LenValue(s[len..], 4 - len)
    && LenSize(s, 4) == len + LenSize(s[len..], 4 - len)
  }

  lemma DecodeStart(s: seq<byte>)
    requires HasLen(s, 4)
    ensures Decoding(s, 0, 0, 1)
  {
    assert s[0..] == s;
  }

  // The next byte ends the field or leads on in it.
  lemma DecodeStep(s: seq<byte>, len: nat, value: nat, multiplier: nat)
    requires Decoding(s, len, value, multiplier)
    ensures len < |s|
    ensures s[len] < 128 ==> LenValue(s, 4) == value + s[len] % 128 * multiplier && LenSize(s, 4) == len + 1
    ensures s[len] >= 128 ==> Decoding(s, len + 1, value + s[len] % 128 * multiplier, multiplier * 128)
  {
    hide HasLen, LenValue, LenSize;
    Unfold(s[len..], 4 - len);
    assert s[len..][0] == s[len] && s[len..][1..] == s[len + 1..];
    if s[len] >= 128 {
      Distribute(multiplier, s[len] % 128, LenValue(s[len + 1..], 4 - (len + 1)));
    } else {
      Commutes(multiplier, s[len]);
    }
  }

  lemma Unfold(t: seq<byte>, k: nat)
    requires HasLen(t, k)
    ensures t != [] && k > 0
    ensures t[0] < 128 ==> LenValue(t, k) == t[0] && LenSize(t, k) == 1
    ensures t[0] >= 128 ==> HasLen(t[1..], k - 1) && k > 1
    ensures t[0] >= 128
            ==> LenValue(t, k) == t[0] % 128 + 128 * LenValue(t[1..], k - 1)
                && LenSize(t, k) == 1 + LenSize(t[1..], k - 1)
  {
  }

  lemma Commutes(m: nat, a: nat)
    ensures m * a == a * m
  {
  }

  lemma Distribute(m: nat, a: nat, b: nat)
    ensures m * (a + 128 * b) == a * m + (m * 128) * b
  {
  }

  // The same for what the field adds up to, wherever it ends.
  ghost predicate Summing(s: seq<byte>, len: nat, value: nat, multiplier: nat) {
    && len <= 4 && len <= |s| && FieldSum(s, 4) == value + multiplier * FieldSum(s[len..], 4 - len)
    && FieldUsed(s, 4) == len + FieldUsed(s[len..], 4 - len)
  }

  lemma SumStart(s: seq<byte>)
    ensures Summing(s, 0, 0, 1)
  {
    assert s[0..] == s;
  }

  lemma SumStep(s: seq<byte>, len: nat, value: nat, multiplier: nat)
    requires Summing(s, len, value, multiplier)
    ensures len == 4 || len == |s| ==> FieldSum(s, 4) == value && FieldUsed(s, 4) == len
    ensures len < 4 && len < |s| && s[len] < 128
            ==> FieldSum(s, 4) == value + s[len] % 128 * multiplier && FieldUsed(s, 4) == len + 1
    ensures len < 4 && len < |s| && s[len] >= 128
            ==> Summing(s, len + 1, value + s[len] % 128 * multiplier, multiplier * 128)
  {
    hide FieldSum, FieldUsed;
    var t := s[len..];
    Digits(t, 4 - len);
    if len < 4 && len < |s| {
      assert t[0] == s[len] && t[1..] == s[len + 1..];
      if s[len] >= 128 {
        Distribute(multiplier, s[len] % 128, FieldSum(t[1..], 3 - len));
      } else {
        Commutes(multiplier, s[len]);
      }
    } else {
      NothingMore(multiplier);
    }
  }

  lemma NothingMore(m: nat)
    ensures m * 0 == 0
  {
  }

  lemma Digits(t: seq<byte>, k: nat)
    ensures k == 0 || t == [] ==> FieldSum(t, k) == 0 && FieldUsed(t, k) == 0
    ensures k > 0 && t != [] && t[0] < 128 ==> FieldSum(t, k) == t[0] && FieldUsed(t, k) == 1
    ensures k > 0 && t != [] && t[0] >= 128
            ==> FieldSum(t, k) == t[0] % 128 + 128 * FieldSum(t[1..], k - 1)
                && FieldUsed(t, k) == 1 + FieldUsed(t[1..], k - 1)
  {
  }

  // MQTTPacket_decode.
  method DecodeLen(src: Source) returns (value: nat, len: nat)
    modifies src
    ensures value == FieldSum(old(src.data), MAX_LENGTH_BYTES) < Scale(4)
    ensures src.data == old(src.data)[FieldUsed(old(src.data), MAX_LENGTH_BYTES)..]
    ensures HasLen(old(src.data), 4)
            ==> value == LenValue(old(src.data), 4) && len == LenSize(old(src.data), 4)
                && src.data == old(src.data)[len..]
  {
    hide HasLen, LenValue, LenSize, Decoding, Scale, FieldSum, FieldUsed, Summing;
    ScaleTo(0);
    ScaleUp(0, 4);
    var multiplier: nat := 1;
    value, len := 0, 0;
    var more := true;
    ghost var s := src.data;
    if HasLen(s, 4) { DecodeStart(s); FieldSumWhole(s, 4); }
    SumStart(s);
    assert s[0..] == s;
    while more
      invariant HasLen(s, 4) && more ==> Decoding(s, len, value, multiplier)
      invariant HasLen(s, 4) && !more ==> len == LenSize(s, 4)
      invariant if more then Summing(s, len, value, multiplier) else value == FieldSum(s, 4) && len == FieldUsed(s, 4)
      invariant value < multiplier == Scale(len) <= Scale(4)
      invariant len <= 4 && len <= |s| && src.data == s[len..]
      decreases if more then 5 - len else 0
    {
      if HasLen(s, 4) { DecodeStep(s, len, value, multiplier); LessThanFour(s, len, value, multiplier); }
      SumStep(s, len, value, multiplier);
      len := len + 1;
      if len > MAX_LENGTH_BYTES {
        return;
      }
      var c := src.Get(1);
      if |c| != 1 {
        return;
      }
      Digit(c[0] % 128, multiplier);
      ScaleTo(len);
      ScaleUp(len, 4);
      var d: nat := c[0] % 128;
      value := value + d * multiplier;
      multiplier := multiplier * 128;
      more := c[0] >= 128;
    }
  }

  lemma Digit(d: nat, m: nat)
    requires d < 128
    ensures d * m + m <= m * 128
  {
  }

  lemma ScaleTo(len: nat)
    ensures Scale(0) == 1 && (len > 0 ==> Scale(len) == 128 * Scale(len - 1))
  {
  }

  lemma {:induction false} ScaleUp(a: nat, b: nat)
    requires a <= b
    ensures Scale(a) <= Scale(b)
    decreases b
  {
    if a < b { ScaleUp(a, b - 1); }
  }

  lemma LessThanFour(s: seq<byte>, len: nat, value: nat, multiplier: nat)
    requires Decoding(s, len, value, multiplier)
    ensures len < 4
  {
  }

  // Copies a chunk to a place in the buffer.
  method Copy(buf: array<byte>, at: nat, chunk: seq<byte>)
    requires at + |chunk| <= buf.Length
    modifies buf
    ensures buf[..at + |chunk|] == old(buf[..at]) + chunk && buf[at + |chunk|..] == old(buf[at + |chunk|..])
  {
    var i := 0;
    while i < |chunk|
      invariant i <= |chunk|
      invariant forall k :: 0 <= k < at ==> buf[k] == old(buf[k])
      invariant forall k :: 0 <= k < i ==> buf[at + k] == chunk[k]
      invariant forall k :: at + |chunk| <= k < buf.Length ==> buf[k] == old(buf[k])
    {
      buf[at + i] := chunk[i];
      i := i + 1;
    }
  }

  // The header, the length field put back, the content: what the buffer holds.
  lemma Assembled(s: seq<byte>, b0: seq<byte>, b1: seq<byte>, b2: seq<byte>)
    requires Packet(s) && b0 == [s[0]] && b1 == EncodeLen(Rem(s)) && b2 == s[Start(s)..][..Rem(s)]
    ensures b0 + b1 + b2 == Stored(s) && |Stored(s)| == 1 + |b1| + Rem(s)
  {
    assert b2 == s[Start(s)..Start(s) + Rem(s)];
  }

  // MQTTPacket_read. The array is the memory from the buffer on, of which `buflen` bytes
  // are the buffer's.
  method Read(buf: array<byte>, buflen: nat, src: Source) returns (rc: int)
    requires Touched(src.data, buflen) <= buf.Length
    modifies buf, src
    ensures var s := old(src.data);
            Packet(s) && Fits(s, buflen) ==> ReadBack(s, rc, buf) && src.data == s[Start(s) + Rem(s)..]
    ensures var s := old(src.data); Packet(s) && !Fits(s, buflen) ==> rc == -1
    ensures var s := old(src.data); rc == if Taken(s, buflen) then s[0] / 16 else -1
    ensures var s := old(src.data); s != [] ==> |Front(s)| <= buf.Length && buf[..|Front(s)|] == Front(s)
    ensures forall k :: Touched(old(src.data), buflen) <= k < buf.Length ==> buf[k] == old(buf[k])
  {
    hide HasLen, LenValue, LenSize, EncodeLen, Stored, Scale, FieldSum, FieldUsed, Taken, Front, Touched;
    ghost var s := src.data;
    NoneTaken(buflen);
    var header := src.Get(1);
    if |header| != 1 {
      return -1;
    }
    HeaderTouched(s, buflen);
    buf[0] := header[0];
    assert header == [s[0]];
    var remLen, _ := DecodeLen(src);
    ghost var rest := src.data;
    if Packet(s) { AfterLen(s); }
    TakenIs(s, buflen);
    FrontIs(s, remLen, buflen);
    var len := PutLen(buf, remLen);
    assert buf[..len] == Front(s);
    if remLen + len > buflen {
      return -1;
    }
    var ok := TakeRest(buf, len, remLen, src);
    assert buf[..len] == Front(s) && buf[0] == buf[..len][0] == s[0];
    if !ok {
      return -1;
    }
    if Packet(s) { Assembled(s, [s[0]], EncodeLen(remLen), rest[..remLen]); }
    rc := buf[0] / 16;
  }

  // The length field put back behind the header.
  method PutLen(buf: array<byte>, remLen: nat) returns (len: nat)
    requires 1 + |EncodeLen(remLen)| <= buf.Length
    modifies buf
    ensures len == 1 + |EncodeLen(remLen)| && buf[..len] == [old(buf[0])] + EncodeLen(remLen)
    ensures forall k :: len <= k < buf.Length ==> buf[k] == old(buf[k])
  {
    hide EncodeLen;
    ghost var b := buf[..];
    var n := WriteLen(buf, 1, remLen);
    assert buf[..1 + n] == buf[..1] + buf[1..1 + n] && buf[..1] == b[..1];
    forall k | 1 + n <= k < buf.Length ensures buf[k]
        == b[k] { assert buf[1 + n..][k - 1 - n] == b[1 + n..][k - 1 - n]; }
    len := 1 + n;
  }

  // The content behind header and length field, unless the stream ends before.
  method TakeRest(buf: array<byte>, len: nat, remLen: nat, src: Source) returns (ok: bool)
    requires len + remLen <= buf.Length
    modifies buf, src
    ensures ok <==> remLen <= |old(src.data)|
    ensures ok ==> src.data == old(src.data)[remLen..]
    ensures ok ==> buf[..len + remLen] == old(buf[..len]) + old(src.data)[..remLen]
    ensures buf[..len] == old(buf[..len]) && forall k :: len + remLen <= k < buf.Length ==> buf[k] == old(buf[k])
  {
    if remLen > 0 {
      var chunk := src.Get(remLen);
      if |chunk| != remLen {
        return false;
      }
      ghost var b := buf[..];
      Copy(buf, len, chunk);
      assert buf[..len] == buf[..len + remLen][..len] == b[..len];
      forall k | len + remLen <= k < buf.Length ensures buf[k] == b[k] {
        assert buf[len + remLen..][k - len - remLen] == b[len + remLen..][k - len - remLen];
      }
    }
    return true;
  }

  lemma TakenIs(s: seq<byte>, buflen: nat)
    requires s != []
    ensures Taken(s, buflen)
            <==> |Front(s)| + FieldSum(s[1..], MAX_LENGTH_BYTES) <= buflen
                 && FieldSum(s[1..], MAX_LENGTH_BYTES) <= |s[1..][FieldUsed(s[1..], MAX_LENGTH_BYTES)..]|
  {
    hide FieldSum, FieldUsed, Front;
  }

  lemma FrontIs(s: seq<byte>, value: nat, buflen: nat)
    requires s != [] && value == FieldSum(s[1..], MAX_LENGTH_BYTES)
    ensures Front(s) == [s[0]] + EncodeLen(value)
    ensures Touched(s, buflen) == if |Front(s)| + value <= buflen then |Front(s)| + value else |Front(s)|
  {
  }

  lemma NoneTaken(buflen: nat)
    ensures !Taken([], buflen) && Touched([], buflen) == 0
  {
  }

  // A header and at most three bytes of a length field, all 0x80.
  ghost predicate CutOff(s: seq<byte>) {
    s != [] && |s| <= 4 && forall i :: 1 <= i < |s| ==> s[i] == 128
  }

  // Four bytes of a longer field, and as many bytes behind as they say.
  ghost predicate Overlong(s: seq<byte>, buflen: nat) {
    TooLong(s) && var value := FieldSum(s[1..], 4); 5 + value <= |s| && 1 + |EncodeLen(value)| + value <= buflen
  }

  // Of the packets these are the ones that fit. Of other streams: a field cut off by the end of
  // the stream, if its value so far is nothing, and one of more than four bytes, as if it had
  // four.
  lemma TakenExact(s: seq<byte>, buflen: nat)
    ensures Packet(s) ==> (Taken(s, buflen) <==> Fits(s, buflen))
    ensures !Packet(s) ==> (Taken(s, buflen) <==> (CutOff(s) && 2 <= buflen) || Overlong(s, buflen))
  {
    if s != [] {
      if HasLen(s[1..], 4) {
        UsedWhole(s[1..], 4);
        FieldSumWhole(s[1..], 4);
        assert s[FieldUsed(s[1..], 4)] == s[1..][FieldUsed(s[1..], 4) - 1];
      } else {
        UsedBroken(s[1..], 4);
      }
    }
  }

  lemma AfterLen(s: seq<byte>)
    requires Packet(s)
    ensures s[1..][LenSize(s[1..], 4)..] == s[Start(s)..] && Rem(s) <= |s[Start(s)..]| && s[..1] == [s[0]]
    ensures s[Start(s)..][Rem(s)..] == s[Start(s) + Rem(s)..]
  {
  }

  // ---- MQTTPacket_readnb ----

  // The calls of a schedule that find something.
  function Positive(polls: seq<nat>): nat {
    if polls == [] then 0 else (if polls[0] > 0 then 1 else 0) + Positive(polls[1..])
  }

  // A source that hands over what has arrived: the schedule says how many bytes each
  // call can get, none being "call again". With it, the reader's place in a packet.
  class Transport {
    var data: seq<byte>
    var polls: seq<nat>
    var multiplier: nat
    var remLen: nat
    var len: nat
    var state: nat

    constructor (data: seq<byte>, polls: seq<nat>)
      ensures this.data == data && this.polls == polls && state == 0
    {
      this.data, this.polls := data, polls;
      multiplier, remLen, len, state := 1, 0, 0, 0;
    }

    method Get(count: nat) returns (chunk: seq<byte>)
      requires count > 0
      modifies `data, `polls
      ensures |chunk| <= count && chunk <= old(data) && data == old(data)[|chunk|..]
      ensures old(polls) != [] ==> |polls| < |old(polls)|
      ensures |polls| <= |old(polls)| && (old(data) != [] ==> |chunk| + Positive(polls) >= Positive(old(polls)))
    {
      if polls == [] {
        return [];
      }
      var n := if polls[0] < count then polls[0] else count;
      n := if n < |data| then n else |data|;
      chunk, data, polls := data[..n], data[n..], polls[1..];
    }
  }

  // A length field of more than four bytes in front.
  predicate TooLong(s: seq<byte>) {
    |s| > MAX_LENGTH_BYTES && forall i :: 1 <= i <= MAX_LENGTH_BYTES ==> s[i] >= 128
  }

  lemma NoPacket(s: seq<byte>)
    requires TooLong(s)
    ensures !Packet(s) && !HasLen(s[1..], MAX_LENGTH_BYTES)
  {
    Unfolded(s[1..], 4);
    Unfolded(s[2..], 3);
    Unfolded(s[3..], 2);
    Unfolded(s[4..], 1);
    assert s[1..][1..] == s[2..] && s[2..][1..] == s[3..] && s[3..][1..] == s[4..];
  }

  lemma Unfolded(t: seq<byte>, k: nat)
    requires t != [] && t[0] >= 128 && k > 0
    ensures HasLen(t, k) ==> k > 1 && HasLen(t[1..], k - 1)
  {
    if HasLen(t, k) { Unfold(t, k); }
  }

  // Where the reader stands in what `s` begins with, `done` bytes of which it has taken.
  ghost predicate Standing(trp: Transport, buf: array<byte>, s: seq<byte>, done: nat)
    reads trp, buf
  {
    && done <= |s| && trp.data == s[done..] && 0 < buf.Length
    && match trp.state
       case 1 => s != [] && buf[0] == s[0] && InField(s, done, trp.len, trp.remLen, trp.multiplier)
       case 2 => Packet(s) && Content(buf, s, done, trp.len, trp.remLen) && trp.remLen > 0
       case _ => done == 0
  }

  // In the length field; before its first byte the counters may still be stale.
  ghost predicate InField(s: seq<byte>, done: nat, len: nat, remLen: nat, multiplier: nat) {
    && done == 1 + len <= |s| && len < MAX_LENGTH_BYTES
    && (len > 0 ==> Underway(s, len, remLen, multiplier))
  }

  // On the way in a length field that may turn out too long.
  ghost predicate Underway(s: seq<byte>, len: nat, remLen: nat, multiplier: nat) {
    Packet(s) ==> Decoding(s[1..], len, remLen, multiplier)
  }

  lemma GetsUnderway(s: seq<byte>)
    ensures Underway(s, 0, 0, 1)
  {
    if Packet(s) { DecodeStart(s[1..]); }
  }

  // The next byte.
  lemma UnderwayStep(s: seq<byte>, len: nat, remLen: nat, multiplier: nat)
    requires (Packet(s) || TooLong(s)) && Underway(s, len, remLen, multiplier) && len <= MAX_LENGTH_BYTES
    ensures len == MAX_LENGTH_BYTES ==> TooLong(s)
    ensures len < MAX_LENGTH_BYTES ==> 1 + len < |s| && var c := s[1 + len];
              if c < 128 then Packet(s) && 2 + len == Start(s) && Rem(s) == remLen + c % 128 * multiplier
              else Underway(s, len + 1, remLen + c % 128 * multiplier, multiplier * 128)
  {
    hide HasLen, LenSize, LenValue, Decoding;
    if Packet(s) {
      DecodeStep(s[1..], len, remLen, multiplier);
      LessThanFour(s[1..], len, remLen, multiplier);
    }
  }

  // The content up to where it has been taken, all of it perhaps.
  ghost predicate Content(buf: array<byte>, s: seq<byte>, done: nat, len: nat, remLen: nat)
    requires Packet(s)
    reads buf
  {
    && Start(s) <= done <= Start(s) + Rem(s) && remLen == Start(s) + Rem(s) - done
    && len == 1 + |EncodeLen(Rem(s))| + (done - Start(s)) <= buf.Length
    && buf[..len] == [s[0]] + EncodeLen(Rem(s)) + s[Start(s)..done]
  }

  // The schedule moved on, and every call of it that found something took a byte or more.
  ghost predicate Advanced(before: seq<nat>, after: seq<nat>, taken: int) {
    && (before != [] ==> |after| < |before|) && |after| <= |before|
    && taken + Positive(after) >= Positive(before)
  }

  lemma AdvancedNow(before: seq<nat>, after: seq<nat>, got: nat)
    requires (before != [] ==> |after| < |before|) && |after| <= |before| && got + Positive(after) >= Positive(before)
    ensures Advanced(before, after, got)
  {
    hide Positive;
  }

  lemma AdvancedTwice(before: seq<nat>, mid: seq<nat>, after: seq<nat>, taken: int, got: nat)
    requires (mid == before && taken == 0) || Advanced(before, mid, taken)
    requires Advanced(mid, after, got)
    ensures Advanced(before, after, taken + got)
  {
    hide Positive;
  }

  // One byte of the field, if there is one to be had.
  method FieldByte(trp: Transport, ghost s: seq<byte>) returns (c: seq<byte>)
    requires (Packet(s) || TooLong(s)) && Underway(s, trp.len, trp.remLen, trp.multiplier) && trp.len < MAX_LENGTH_BYTES
    requires 1 + trp.len <= |s| && trp.data == s[1 + trp.len..]
    modifies trp
    ensures trp.state == old(trp.state) && |c| <= 1 && trp.len == old(trp.len) + |c|
    ensures 1 + trp.len <= |s| && trp.data == s[1 + trp.len..]
    ensures Advanced(old(trp.polls), trp.polls, |c|)
    ensures c == [] || c[0] >= 128 ==> Underway(s, trp.len, trp.remLen, trp.multiplier)
    ensures c != [] && c[0] < 128 ==> Packet(s) && 1 + trp.len == Start(s) && trp.remLen == Rem(s)
  {
    hide Underway, Decoding, HasLen, LenSize, LenValue, Positive, TooLong, Packet, Start, Rem, Advanced;
    UnderwayStep(s, trp.len, trp.remLen, trp.multiplier);
    c := trp.Get(1);
    AdvancedNow(old(trp.polls), trp.polls, |c|);
    if c != [] {
      trp.len := trp.len + 1;
      var d: nat := c[0] % 128;
      trp.remLen := trp.remLen + d * trp.multiplier;
      trp.multiplier := trp.multiplier * 128;
    }
  }

  // MQTTPacket_decodenb: the field complete, nothing more to be had now, or a fifth byte
  // of the field to come.
  method DecodeNb(trp: Transport, ghost s: seq<byte>, ghost done0: nat) returns (rc: int, ghost done: nat)
    requires (Packet(s) || TooLong(s)) && done0 <= |s| && trp.data == s[done0..]
    requires InField(s, done0, trp.len, trp.remLen, trp.multiplier)
    modifies trp
    ensures done0 <= done <= |s| && trp.data == s[done..] && trp.state == old(trp.state)
    ensures rc == 0 ==> InField(s, done, trp.len, trp.remLen, trp.multiplier)
    ensures rc >= -1 && (rc > 0 ==> Packet(s)) && (rc < 0 ==> TooLong(s))
    ensures rc > 0 ==> done == Start(s) && trp.remLen == Rem(s)
    ensures rc < 0 ==> done == 1 + MAX_LENGTH_BYTES
    ensures Advanced(old(trp.polls), trp.polls, done - done0)
  {
    hide Underway, Decoding, HasLen, LenSize, LenValue, Positive, TooLong, Packet, Start, Rem, Advanced;
    done := done0;
    if trp.len == 0 {
      trp.multiplier := 1;
      trp.remLen := 0;
      GetsUnderway(s);
    }
    var more := true;
    while more
      invariant done0 <= done <= |s| && trp.data == s[done..] && done == 1 + trp.len
      invariant more ==> Underway(s, trp.len, trp.remLen, trp.multiplier)
      invariant !more ==> Packet(s) && done == Start(s) && trp.remLen == Rem(s) && trp.len > 0
      invariant trp.len <= MAX_LENGTH_BYTES && trp.state == old(trp.state) && (more || done > done0)
      invariant if done == done0 then trp.polls == old(trp.polls) && trp.len < MAX_LENGTH_BYTES
                else Advanced(old(trp.polls), trp.polls, done - done0)
      decreases if more then 5 - trp.len else 0
    {
      UnderwayStep(s, trp.len, trp.remLen, trp.multiplier);
      if trp.len >= MAX_LENGTH_BYTES {
        return -1, done;
      }
      ghost var mid := trp.polls;
      var c := FieldByte(trp, s);
      AdvancedTwice(old(trp.polls), mid, trp.polls, done - done0, |c|);
      if c == [] {
        return 0, done;
      }
      done := done + 1;
      more := c[0] >= 128;
    }
    rc := trp.len;
  }

  // What a call leaves: the packet read, or the reader standing further on in it.
  ghost predicate After(trp: Transport, buf: array<byte>, buflen: nat, s: seq<byte>, done: nat, rc: int)
    reads trp, buf
  {
    && (rc == 0 ==> Standing(trp, buf, s, done) && trp.state in {0, 1, 2} && (trp.state == 2 ==> Fits(s, buflen)))
    && (rc != 0 ==> trp.state == 0)
    && (rc != 0 && Packet(s) && Fits(s, buflen) ==> ReadBack(s, rc, buf) && trp.data == s[Start(s) + Rem(s)..])
    && (rc != 0 && !(Packet(s) && Fits(s, buflen)) ==> rc == -1)
  }

  // Case 2 of MQTTPacket_readnb: the content.
  method ReadContent(buf: array<byte>, buflen: nat, trp: Transport, ghost s: seq<byte>, ghost done0: nat)
    returns (rc: int, ghost done: nat)
    requires Packet(s) && Type(s) > 0 && Fits(s, buflen) && |Stored(s)| <= buf.Length && trp.state == 2
    requires done0 <= |s| && trp.data == s[done0..] && Content(buf, s, done0, trp.len, trp.remLen)
    modifies buf, trp
    ensures done0 <= done && After(trp, buf, buflen, s, done, rc)
    ensures old(trp.remLen) > 0 ==> Advanced(old(trp.polls), trp.polls, done - done0)
    ensures old(trp.remLen) == 0 ==> trp.polls == old(trp.polls) && done == done0 && rc != 0
    ensures rc != 0 ==> done == Start(s) + Rem(s)
    ensures buf[|Stored(s)|..] == old(buf[|Stored(s)|..])
  {
    hide HasLen, LenSize, LenValue, EncodeLen, Stored, Positive;
    done := done0;
    StoredSize(s);
    if trp.remLen > 0 {
      var chunk := trp.Get(trp.remLen);
      if chunk == [] {
        return 0, done;
      }
      ContentMore(s, done, chunk, buf[..trp.len]);
      Copy(buf, trp.len, chunk);
      done := done + |chunk|;
      trp.remLen := trp.remLen - |chunk|;
      trp.len := trp.len + |chunk|;
      if trp.remLen > 0 {
        return 0, done;
      }
    }
    ContentWhole(s, done);
    rc := buf[0] / 16;
    assert buf[0] == buf[..trp.len][0] == s[0];
    trp.state := 0;
  }

  lemma StoredSize(s: seq<byte>)
    requires Packet(s)
    ensures |Stored(s)| == 1 + |EncodeLen(Rem(s))| + Rem(s)
  {
  }

  lemma ContentMore(s: seq<byte>, done: nat, chunk: seq<byte>, have: seq<byte>)
    requires Packet(s) && Start(s) <= done <= |s| && chunk <= s[done..]
    requires have == [s[0]] + EncodeLen(Rem(s)) + s[Start(s)..done]
    ensures done + |chunk| <= |s| && s[done..][|chunk|..] == s[done + |chunk|..]
    ensures have + chunk == [s[0]] + EncodeLen(Rem(s)) + s[Start(s)..done + |chunk|]
  {
    assert chunk == s[done..][..|chunk|];
    assert s[Start(s)..done] + chunk == s[Start(s)..done + |chunk|];
  }

  lemma ContentWhole(s: seq<byte>, done: nat)
    requires Packet(s) && done == Start(s) + Rem(s)
    ensures [s[0]] + EncodeLen(Rem(s)) + s[Start(s)..done] == Stored(s)
    ensures |Stored(s)| == 1 + |EncodeLen(Rem(s))| + Rem(s)
  {
  }

  // Case 1: the length field, then the content.
  method ReadField(buf: array<byte>, buflen: nat, trp: Transport, ghost s: seq<byte>, ghost done0: nat)
    returns (rc: int, ghost done: nat)
    requires (Packet(s) && Type(s) > 0) || TooLong(s)
    requires Touched(s, buflen) <= buf.Length && trp.state == 1 && buf.Length > 0
    requires buf[0] == s[0]
    requires done0 <= |s| && trp.data == s[done0..] && InField(s, done0, trp.len, trp.remLen, trp.multiplier)
    modifies buf, trp
    ensures done0 <= done && After(trp, buf, buflen, s, done, rc)
    ensures Advanced(old(trp.polls), trp.polls, done - done0)
    ensures rc != 0 && Packet(s) && Fits(s, buflen) ==> done == Start(s) + Rem(s)
    ensures rc != 0 && TooLong(s) ==> done == 1 + MAX_LENGTH_BYTES
    ensures buf[Touched(s, buflen)..] == old(buf[Touched(s, buflen)..])
  {
    hide HasLen, LenSize, LenValue, EncodeLen, Stored, Scale, Decoding, Positive, FieldSum, Front, Touched;
    if TooLong(s) { NoPacket(s); HeaderTouched(s, buflen); } else { WritesInside(s, buflen); }
    rc, done := DecodeNb(trp, s, done0);
    if rc == -1 {
      trp.state := 0;
      return;
    }
    if rc == 0 {
      return;
    }
    assert buf[..1] == [s[0]];
    var n := WriteLen(buf, 1, trp.remLen);
    assert buf[..1 + n] == buf[..1] + buf[1..1 + n];
    assert s[Start(s)..done] == [];
    trp.len := 1 + n;
    if trp.remLen + trp.len > buflen {
      trp.state := 0;
      return -1, done;
    }
    trp.state := 2;
    rc, done := ReadContent(buf, buflen, trp, s, done);
  }

  lemma HeaderTouched(s: seq<byte>, buflen: nat)
    requires s != []
    ensures 1 < |Front(s)| <= Touched(s, buflen)
  {
  }

  lemma RemBound(s: seq<byte>)
    requires Packet(s)
    ensures Rem(s) < Scale(4) && |EncodeLen(Rem(s))| <= 4
  {
    LenBound(s[1..], 4);
    EncodedSize(Rem(s), 4);
  }

  // MQTTPacket_readnb: 0 for "call again", else what MQTTPacket_read would give.
  method ReadNb(buf: array<byte>, buflen: nat, trp: Transport, ghost s: seq<byte>, ghost done0: nat)
    returns (rc: int, ghost done: nat)
    requires ((Packet(s) && Type(s) > 0) || TooLong(s)) && Touched(s, buflen) <= buf.Length
    requires Standing(trp, buf, s, done0) && (trp.state == 2 ==> Fits(s, buflen))
    modifies buf, trp
    ensures done0 <= done && After(trp, buf, buflen, s, done, rc)
    ensures Advanced(old(trp.polls), trp.polls, done - done0)
    ensures rc != 0 && Packet(s) && Fits(s, buflen) ==> done == Start(s) + Rem(s)
    ensures rc != 0 && TooLong(s) ==> done == 1 + MAX_LENGTH_BYTES
    ensures buf[Touched(s, buflen)..] == old(buf[Touched(s, buflen)..])
  {
    hide HasLen, LenSize, LenValue, EncodeLen, Stored, Scale, Decoding, Positive, FieldSum, Front, Touched;
    if TooLong(s) { NoPacket(s); HeaderTouched(s, buflen); } else { WritesInside(s, buflen); }
    done := done0;
    if trp.state == 2 {
      rc, done := ReadContent(buf, buflen, trp, s, done);
    } else if trp.state == 1 {
      rc, done := ReadField(buf, buflen, trp, s, done);
    } else {
      trp.state := 0;
      var header := trp.Get(1);
      if header == [] {
        return 0, done;
      }
      buf[0] := header[0];
      trp.len := 0;
      trp.state := 1;
      assert header[0] == s[0] && s[0..][1..] == s[1..];
      done := 1;
      rc, done := ReadField(buf, buflen, trp, s, done);
    }
  }

  // ---- Streams of packets ----

  // The stream starts with m packets that fit the buffer, none of the reserved type 0.
  predicate Packets(s: seq<byte>, m: nat, buflen: nat) {
    m > 0 ==> Packet(s) && Type(s) > 0 && Fits(s, buflen) && Packets(s[Start(s) + Rem(s)..], m - 1, buflen)
  }

  // What reading them yields: types, and packets as stored.
  function Results(s: seq<byte>, m: nat, buflen: nat): seq<(int, seq<byte>)>
    requires Packets(s, m, buflen)
  {
    if m == 0 then [] else [(Type(s), Stored(s))] + Results(s[Start(s) + Rem(s)..], m - 1, buflen)
  }

  // How many bytes they take.
  function Extent(s: seq<byte>, m: nat, buflen: nat): nat
    requires Packets(s, m, buflen)
  {
    if m == 0 then 0 else Start(s) + Rem(s) + Extent(s[Start(s) + Rem(s)..], m - 1, buflen)
  }

  // The size of the packet a buffer starts with, from its length field.
  function SizeIn(b: seq<byte>): nat {
    if b != [] && HasLen(b[1..], MAX_LENGTH_BYTES) then
        1 + LenSize(b[1..], MAX_LENGTH_BYTES) + LenValue(b[1..], MAX_LENGTH_BYTES) else 0
  }

  lemma SizeStored(s: seq<byte>, b: seq<byte>)
    requires Packet(s) && Stored(s) <= b
    ensures SizeIn(b) == |Stored(s)|
  {
    hide HasLen, LenSize, LenValue;
    RemBound(s);
    var n := Start(s);
    var rest := s[n..n + Rem(s)] + b[|Stored(s)|..];
    assert b == Stored(s) + b[|Stored(s)|..];
    assert b[1..] == EncodeLen(Rem(s)) + rest;
    EncodeDecode(Rem(s), 4, rest);
  }

  // Reading the packets one after the other, waiting for each.
  method ReadAll(s: seq<byte>, m: nat, buflen: nat) returns (outs: seq<(int, seq<byte>)>)
    requires Packets(s, m, buflen)
    ensures outs == Results(s, m, buflen)
  {
    hide Packet, Start, Rem, Stored, Fits, Type, Touched;
    var src := new Source(s);
    var buf := new byte[buflen];
    outs := [];
    var i := 0;
    while i < m
      invariant i <= m && Packets(src.data, m - i, buflen)
      invariant outs + Results(src.data, m - i, buflen) == Results(s, m, buflen)
    {
      ghost var t := src.data;
      RoomEnough(t, buflen);
      var rc := Read(buf, buflen, src);
      BufferSize(t, rc, buf);
      outs := outs + [(rc, buf[..SizeIn(buf[..])])];
      i := i + 1;
    }
  }

  lemma BufferSize(s: seq<byte>, rc: int, buf: array<byte>)
    requires Packet(s) && ReadBack(s, rc, buf)
    ensures SizeIn(buf[..]) == |Stored(s)| <= buf.Length && buf[..|Stored(s)|] == Stored(s) && rc == Type(s)
  {
    hide Stored, SizeIn;
    assert buf[..] == buf[..|Stored(s)|] + buf[|Stored(s)|..];
    SizeStored(s, buf[..]);
  }

  lemma RoomEnough(s: seq<byte>, buflen: nat)
    requires Packet(s) && Fits(s, buflen)
    ensures 0 < Touched(s, buflen) <= buflen
  {
    WritesInside(s, buflen);
  }

  lemma StandingStart(trp: Transport, buf: array<byte>, s: seq<byte>)
    requires Packet(s) && trp.data == s && trp.state == 0 && buf.Length > 0
    ensures Standing(trp, buf, s, 0)
  {
    assert s[0..] == s;
  }

  lemma EndWithin(s: seq<byte>)
    requires Packet(s)
    ensures Start(s) + Rem(s) <= |s|
  {
  }

  lemma AdvancedMeans(before: seq<nat>, after: seq<nat>, taken: int)
    requires Advanced(before, after, taken)
    ensures before != [] ==> |after| < |before|
    ensures taken + Positive(after) >= Positive(before)
  {
  }

  // The first packet of a stream, and what is left.
  lemma FirstPacket(outs: seq<(int, seq<byte>)>, s: seq<byte>, m: nat, buflen: nat)
    requires Packets(s, m, buflen) && m > 0
    ensures Packet(s) && Type(s) > 0 && Fits(s, buflen) && Packets(s[Start(s) + Rem(s)..], m - 1, buflen)
    ensures outs + Results(s, m, buflen)
            == outs + [(Type(s), Stored(s))] + Results(s[Start(s) + Rem(s)..], m - 1, buflen)
    ensures Extent(s, m, buflen) == Start(s) + Rem(s) + Extent(s[Start(s) + Rem(s)..], m - 1, buflen)
  {
    hide Packet, Start, Rem, Stored, Fits, Type;
  }

  lemma NoPackets(s: seq<byte>, buflen: nat)
    ensures Packets(s, 0, buflen) && Results(s, 0, buflen) == [] && Extent(s, 0, buflen) == 0
  {
  }

  // Whoever still stands in a packet has not taken all of it.
  lemma StandingShort(trp: Transport, buf: array<byte>, s: seq<byte>, done: nat, m: nat, buflen: nat)
    requires m > 0 && Packets(s, m, buflen) && Standing(trp, buf, s, done)
    ensures done < Extent(s, m, buflen) && Positive([]) == 0
  {
    hide HasLen, LenSize, LenValue;
    if trp.state == 1 && trp.len > 0 { LessThanFour(s[1..], trp.len, trp.remLen, trp.multiplier); }
  }

  // The same, calling the non-blocking reader as long as the schedule goes on: it yields
  // what the blocking one does, in the same order, and all of it once the schedule has
  // delivered enough.
  method PollAll(s: seq<byte>, m: nat, buflen: nat, polls: seq<nat>) returns (outs: seq<(int, seq<byte>)>)
    requires Packets(s, m, buflen)
    ensures outs <= Results(s, m, buflen)
    ensures Positive(polls) >= Extent(s, m, buflen) ==> outs == Results(s, m, buflen)
  {
    hide Packet, Start, Rem, Stored, Fits, Type, Standing, Advanced, Positive, Touched, TooLong, ReadBack, SizeIn,
         Packets, Results, Extent;
    var trp := new Transport(s, polls);
    var buf := new byte[buflen];
    outs := [];
    ghost var t, done := s, 0;
    ghost var taken := 0;
    var i := 0;
    if m > 0 {
      FirstPacket([], s, m, buflen);
      RoomEnough(s, buflen);
      StandingStart(trp, buf, s);
    }
    assert outs + Results(t, m, buflen) == Results(s, m, buflen);
    while i < m && trp.polls != []
      invariant i <= m && |outs| == i && Packets(t, m - i, buflen)
      invariant outs + Results(t, m - i, buflen) == Results(s, m, buflen)
      invariant i < m ==> Packet(t) && Standing(trp, buf, t, done) && (trp.state == 2 ==> Fits(t, buflen))
      invariant taken + Positive(trp.polls) >= Positive(polls)
      invariant i < m ==> taken - done + Extent(t, m - i, buflen) == Extent(s, m, buflen)
      decreases |trp.polls|
    {
      ghost var before, done0 := trp.polls, done;
      var rc;
      FirstPacket(outs, t, m - i, buflen);
      RoomEnough(t, buflen);
      rc, done := ReadNb(buf, buflen, trp, t, done);
      AdvancedMeans(before, trp.polls, done - done0);
      taken := taken + (done - done0);
      if rc != 0 {
        BufferSize(t, rc, buf);
        outs := outs + [(rc, buf[..SizeIn(buf[..])])];
        i := i + 1;
        EndWithin(t);
        t := t[Start(t) + Rem(t)..];
        done := 0;
        if i < m {
          FirstPacket(outs, t, m - i, buflen);
          StandingStart(trp, buf, t);
        }
      }
    }
    if i < m {
      StandingShort(trp, buf, t, done, m - i, buflen);
    } else {
      NoPackets(t, buflen);
      assert outs + [] == outs;
    }
  }
}
