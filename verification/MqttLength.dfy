// The remaining-length field of MQTT 3.1.1, section 2.2.3
// (component/mqtt/MQTTPacket.c, MQTTPacket_encode, MQTTPacket_decode, MQTTPacket_len).
module MqttLength {
  import opened Bytes

  // ---- The field ----

  function EncodeLen(n: nat): (r: seq<byte>)
    ensures |r| > 0
  {
    if n < 128 then [n] else [n % 128 + 128] + EncodeLen(n / 128)
  }

  // A field at the front of a byte string: at most `k` bytes, the last one below 128.
  predicate HasLen(s: seq<byte>, k: nat) {
    k > 0 && s != [] && (s[0] < 128 || HasLen(s[1..], k - 1))
  }

  function LenSize(s: seq<byte>, k: nat): (n: nat)
    requires HasLen(s, k)
    ensures 0 < n <= k && n <= |s|
  {
    if s[0] < 128 then 1 else 1 + LenSize(s[1..], k - 1)
  }

  function LenValue(s: seq<byte>, k: nat): nat
    requires HasLen(s, k)
  {
    if s[0] < 128 then s[0] else s[0] - 128 + 128 * LenValue(s[1..], k - 1)
  }

  // 128 to the k.
  function Scale(k: nat): (r: nat)
    ensures r > 0
  {
    if k == 0 then 1 else 128 * Scale(k - 1)
  }

  lemma {:induction false} LenBound(s: seq<byte>, k: nat)
    requires HasLen(s, k)
    ensures LenValue(s, k) < Scale(k)
  {
    if s[0] >= 128 { LenBound(s[1..], k - 1); }
  }

  lemma {:induction false} EncodedSize(n: nat, k: nat)
    requires k > 0 && n < Scale(k)
    ensures |EncodeLen(n)| <= k
  {
    if n >= 128 { EncodedSize(n / 128, k - 1); }
  }

  // What is encoded is decoded, with the same number of bytes, whatever follows.
  lemma {:induction false} EncodeDecode(n: nat, k: nat, rest: seq<byte>)
    requires k > 0 && n < Scale(k)
    ensures HasLen(EncodeLen(n) + rest, k) && LenValue(EncodeLen(n) + rest, k) == n
    ensures LenSize(EncodeLen(n) + rest, k) == |EncodeLen(n)|
  {
    var s := EncodeLen(n) + rest;
    if n >= 128 {
      EncodeDecode(n / 128, k - 1, rest);
      assert s[1..] == EncodeLen(n / 128) + rest;
    }
  }

  // MQTTPacket_len: the size of a packet, but for one byte too many at four lengths.
  function PacketLen(remLen: nat): (r: nat)
    ensures remLen < Scale(4)
            ==> r == 1 + |EncodeLen(remLen)| + remLen + if remLen in {127, 16383, 2097150, 2097151} then 1 else 0
  {
    SizeSteps(remLen);
    var n := remLen + 1;
    if n < 128 then n + 1 else if n < 16384 then n + 2 else if n < 2097151 then n + 3 else n + 4
  }

  lemma SizeSteps(n: nat)
    ensures n < 128 ==> |EncodeLen(n)| == 1
    ensures 128 <= n < 16384 ==> |EncodeLen(n)| == 2
    ensures 16384 <= n < 2097152 ==> |EncodeLen(n)| == 3
    ensures 2097152 <= n < 268435456 ==> |EncodeLen(n)| == 4
    ensures Scale(4) == 268435456
  {
    assert Scale(1) == 128 && Scale(2) == 16384 && Scale(3) == 2097152;
    assert n >= 128 ==> |EncodeLen(n)| == 1 + |EncodeLen(n / 128)|;
    assert n >= 16384 ==> |EncodeLen(n / 128)| == 1 + |EncodeLen(n / 128 / 128)|;
    assert n >= 2097152 ==> |EncodeLen(n / 128 / 128)| == 1 + |EncodeLen(n / 128 / 128 / 128)|;
  }

  // ---- Writing it ----

  // MQTTPacket_encode.
  method WriteLen(buf: array<byte>, at: nat, length0: nat) returns (rc: nat)
    requires at + |EncodeLen(length0)| <= buf.Length
    modifies buf
    ensures rc == |EncodeLen(length0)|
    ensures buf[..at] == old(buf[..at]) && buf[at..at + rc] == EncodeLen(length0)
    ensures buf[at + rc..] == old(buf[at + rc..])
  {
    hide EncodeLen;
    var length := length0;
    var d: byte;
    rc := 0;
    ghost var out: seq<byte> := [];
    var more := true;
    while more
      invariant rc == |out| && EncodeLen(length0) == (if more then out + EncodeLen(length) else out)
      invariant at + rc <= buf.Length && buf[at..at + rc] == out
      invariant forall k :: (0 <= k < at || at + |EncodeLen(length0)| <= k < buf.Length) ==> buf[k] == old(buf[k])
      decreases if more then length + 1 else 0
    {
      EncodeStep(length, out);
      d := length % 128;
      var rest := length / 128;
      if rest > 0 {
        d := d + 128;
      }
      buf[at + rc] := d;
      rc := rc + 1;
      assert buf[at..at + rc] == out + [d];
      out := out + [d];
      length := rest;
      more := rest > 0;
    }
  }

  lemma EncodeStep(n: nat, out: seq<byte>)
    ensures |EncodeLen(n)| >= 1
    ensures n < 128 ==> out + EncodeLen(n) == out + [n]
    ensures n >= 128 ==> out + EncodeLen(n) == out + [n % 128 + 128] + EncodeLen(n / 128)
  {
  }
}
