// Packets on the wire, as MQTT 3.1.1 has them: sections 1.5.3, 2.2, 3.3 and 3.8.
module MqttWire {
  import opened Bytes

  datatype Publish = Publish(dup: bool, qos: nat, retained: bool, packetId: nat, topic: seq<byte>, payload: seq<byte>)

  datatype Request = Request(filter: seq<byte>, qos: byte)

  // ---- Section 2.2: the fixed header ----

  // Bit k of a byte, bit 0 the lowest.
  ghost predicate Bit(h: byte, k: nat)
    requires k < 8
  {
    h / [1, 2, 4, 8, 16, 32, 64, 128][k] % 2 == 1
  }

  ghost function One(b: bool): nat {
    if b then 1 else 0
  }

  // Bits 7 to 4: the packet type; 3: a duplicate; 2 and 1: quality of service; 0: retained.
  ghost predicate FirstByte(h: byte, kind: nat, dup: bool, qos: nat, retain: bool) {
    && kind == 8 * One(Bit(h, 7)) + 4 * One(Bit(h, 6)) + 2 * One(Bit(h, 5)) + One(Bit(h, 4))
    && Bit(h, 3) == dup && qos == 2 * One(Bit(h, 2)) + One(Bit(h, 1)) && Bit(h, 0) == retain
  }

  ghost function Seven(x: byte): nat {
    x % 128
  }

  // The remaining length, behind the first byte: n bytes of seven bits, the lowest first, all
  // but the last with the high bit set.
  ghost predicate LengthField(b: seq<byte>, n: nat, len: nat) {
    && 1 <= n <= 4 && n < |b| && (forall i :: 1 <= i < n ==> b[i] >= 128) && b[n] < 128
    && len == Seven(b[1]) + (if n > 1 then 128 * Seven(b[2]) else 0) + (if n > 2 then 16384 * Seven(b[3]) else 0)
              + if n > 3 then 2097152 * Seven(b[4]) else 0
  }

  // ---- Section 1.5: numbers and strings ----

  ghost predicate WordField(b: seq<byte>, p: nat, n: nat) {
    p + 2 <= |b| && n == 256 * (b[p] as nat) + b[p + 1]
  }

  ghost predicate StringField(b: seq<byte>, p: nat, s: seq<byte>) {
    WordField(b, p, |s|) && p + 2 + |s| <= |b| && b[p + 2..p + 2 + |s|] == s
  }

  // ---- Sections 3.3 and 3.8 ----

  // A PUBLISH in front of b, with a length field of n bytes: topic, for quality of service 1
  // and up a packet identifier, and the payload.
  ghost predicate IsPublish(b: seq<byte>, n: nat, p: Publish) {
    && b != [] && FirstByte(b[0], 3, p.dup, p.qos, p.retained)
    && var id := if p.qos > 0 then 2 else 0;
       var len := 2 + |p.topic| + id + |p.payload|;
       && LengthField(b, n, len) && 1 + n + len <= |b| && StringField(b, 1 + n, p.topic)
       && (p.qos > 0 ==> WordField(b, 3 + n + |p.topic|, p.packetId))
       && b[3 + n + |p.topic| + id..1 + n + len] == p.payload
  }

  // A SUBSCRIBE in front of b: first byte 0x82 but for the duplicate flag, a packet
  // identifier and the requests.
  ghost predicate IsSubscribe(b: seq<byte>, n: nat, dup: bool, packetId: nat, rs: seq<Request>) {
    && b != [] && FirstByte(b[0], 8, dup, 1, false)
    && exists end: nat :: end >= 1 + n && LengthField(b, n, end - (1 + n)) && end <= |b|
         && WordField(b[..end], 1 + n, packetId) && RequestFields(b[..end], 3 + n, rs)
  }

  ghost predicate RequestFields(b: seq<byte>, p: nat, rs: seq<Request>)
    decreases rs
  {
    if rs == [] then p == |b| else
      var q := p + 2 + |rs[0].filter|;
      StringField(b, p, rs[0].filter) && q < |b| && b[q] == rs[0].qos && RequestFields(b, q + 1, rs[1..])
  }
}
