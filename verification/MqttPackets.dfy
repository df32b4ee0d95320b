// PUBLISH and SUBSCRIBE packets, sections 3.3 and 3.8 of MQTT 3.1.1
// (component/mqtt/MQTTSerializePublish.c, MQTTDeserializePublish.c,
// MQTTSubscribeClient.c, MQTTSubscribeServer.c).
module MqttPackets {
  import opened Bytes
  import opened MqttLength
  import opened MqttRead
  import opened MqttWire
  import opened Options
  import opened Sequences

  const PUBLISH := 3
  const SUBSCRIBE := 8
  const BUFFER_TOO_SHORT := -2
  const READ_ERROR := -1

  // ---- Header bytes ----

  function Header(kind: nat, dup: bool, qos: nat, retain: bool): byte
    requires kind < 16 && qos < 4
  {
    kind * 16 + (if dup then 8 else 0) + qos * 2 + if retain then 1 else 0
  }

  function KindOf(h: byte): nat { h / 16 }
  function DupOf(h: byte): bool { h / 8 % 2 == 1 }
  function QosOf(h: byte): nat { h / 2 % 4 }
  function RetainOf(h: byte): bool { h % 2 == 1 }

  lemma HeaderBack(kind: nat, dup: bool, qos: nat, retain: bool)
    requires kind < 16 && qos < 4
    ensures var h := Header(kind, dup, qos, retain);
            KindOf(h) == kind && DupOf(h) == dup && QosOf(h) == qos && RetainOf(h) == retain
  {
  }

  // ---- Strings ----

  // A zero-terminated string or one with a length; given in one form only.
  datatype MqttString = MqttString(cstring: Option<seq<byte>>, lenstring: seq<byte>) {
    predicate OneForm() {
      cstring.Some? ==> lenstring == []
    }

    function Text(): seq<byte> {
      if cstring.Some? then cstring.value else lenstring
    }
  }

  // MQTTstrlen.
  function StrLen(m: MqttString): nat {
    if m.cstring.Some? then |m.cstring.value| else |m.lenstring|
  }

  function IntBytes(n: nat): seq<byte> {
    [n / 256 % 256, n % 256]
  }

  function StringBytes(s: seq<byte>): seq<byte> {
    IntBytes(|s|) + s
  }

  // ---- Cursor writes ----

  method WriteChar(buf: array<byte>, ptr0: nat, c: byte) returns (ptr: nat)
    requires ptr0 < buf.Length
    modifies buf
    ensures ptr == ptr0 + 1 && buf[..ptr] == old(buf[..ptr0]) + [c]
  {
    buf[ptr0] := c;
    ptr := ptr0 + 1;
  }

  method WriteInt(buf: array<byte>, ptr0: nat, n: nat) returns (ptr: nat)
    requires ptr0 + 2 <= buf.Length
    modifies buf
    ensures ptr == ptr0 + 2 && buf[..ptr] == old(buf[..ptr0]) + IntBytes(n)
  {
    buf[ptr0] := n / 256 % 256;
    buf[ptr0 + 1] := n % 256;
    ptr := ptr0 + 2;
  }

  // writeMQTTString: the length-delimited form first.
  method WriteString(buf: array<byte>, ptr0: nat, m: MqttString) returns (ptr: nat)
    requires m.OneForm() && ptr0 + 2 + |m.Text()| <= buf.Length
    modifies buf
    ensures ptr == ptr0 + 2 + |m.Text()| && buf[..ptr] == old(buf[..ptr0]) + StringBytes(m.Text())
  {
    if |m.lenstring| > 0 {
      ptr := WriteInt(buf, ptr0, |m.lenstring|);
      Copy(buf, ptr, m.lenstring);
      ptr := ptr + |m.lenstring|;
    } else if m.cstring.Some? {
      ptr := WriteInt(buf, ptr0, |m.cstring.value|);
      Copy(buf, ptr, m.cstring.value);
      ptr := ptr + |m.cstring.value|;
    } else {
      ptr := WriteInt(buf, ptr0, 0);
    }
  }

  method WriteLength(buf: array<byte>, ptr0: nat, n: nat) returns (ptr: nat)
    requires ptr0 + |EncodeLen(n)| <= buf.Length
    modifies buf
    ensures ptr == ptr0 + |EncodeLen(n)| && buf[..ptr] == old(buf[..ptr0]) + EncodeLen(n)
  {
    var rc := WriteLen(buf, ptr0, n);
    ptr := ptr0 + rc;
    assert buf[..ptr] == buf[..ptr0] + buf[ptr0..ptr];
  }

  // ---- Cursor reads ----

  // readMQTTLenString: the string, and the position behind it.
  method ReadString(b: seq<byte>, ptr: nat, end: nat) returns (r: Option<(seq<byte>, nat)>)
    requires ptr <= end <= |b|
    ensures r == StringAt(b, ptr, end)
  {
    if end - ptr > 1 {
      var len := LdWord(b[ptr + 1], b[ptr]);
      if ptr + 2 + len <= end {
        return Some((b[ptr + 2..ptr + 2 + len], ptr + 2 + len));
      }
    }
    return None;
  }

  function StringAt(b: seq<byte>, ptr: nat, end: nat): (r: Option<(seq<byte>, nat)>)
    requires ptr <= end <= |b|
    ensures r.Some? ==> ptr + 2 <= r.value.1 <= end
  {
    if end - ptr > 1 && ptr + 2 + LdWord(b[ptr + 1], b[ptr]) <= end then
      var n := LdWord(b[ptr + 1], b[ptr]);
      Some((b[ptr + 2..ptr + 2 + n], ptr + 2 + n))
    else None
  }

  // A string written is a string read.
  lemma StringBack(b: seq<byte>, pre: seq<byte>, s: seq<byte>, post: seq<byte>, end: nat)
    requires b == pre + StringBytes(s) + post && |s| <= 65535 && |pre| + 2 + |s| <= end <= |b|
    ensures StringAt(b, |pre|, end) == Some((s, |pre| + 2 + |s|))
  {
    var n := |pre|;
    assert b == pre + [|s| / 256 % 256, |s| % 256] + (s + post);
    assert b[n] == |s| / 256 && b[n + 1] == |s| % 256;
    assert b[n + 2..n + 2 + |s|] == s;
  }

  // ---- PUBLISH ----

  // MQTTSerialize_publishLength.
  function PublishLength(qos: nat, topic: MqttString, payloadLen: nat): nat {
    2 + StrLen(topic) + payloadLen + if qos > 0 then 2 else 0
  }

  // The packet, section by section.
  function PublishBody(p: Publish): seq<byte> {
    StringBytes(p.topic) + (if p.qos > 0 then IntBytes(p.packetId) else []) + p.payload
  }

  function PublishPacket(p: Publish): seq<byte>
    requires p.qos < 4
  {
    [Header(PUBLISH, p.dup, p.qos, p.retained)] + EncodeLen(|PublishBody(p)|) + PublishBody(p)
  }

  // MQTTSerialize_publish.
  method SerializePublish(buf: array<byte>, buflen: nat, dup: bool, qos: nat, retained: bool, packetId: nat,
                          topic: MqttString, payload: seq<byte>)
    returns (rc: int)
    requires buflen <= buf.Length && qos < 4 && packetId <= 65535 && topic.OneForm() && |topic.Text()| <= 65535
    requires PublishLength(qos, topic, |payload|) < Scale(4)
    modifies buf
    ensures var n := PublishLength(qos, topic, |payload|);
            if PacketLen(n) > buflen then rc == -2
            else rc == 1 + |EncodeLen(n)| + n && rc <= PacketLen(n) <= buflen
                 && buf[..rc] == PublishPacket(Publish(dup, qos, retained, packetId, topic.Text(), payload))
                 && IsPublish(buf[..rc], |EncodeLen(n)|, Publish(dup, qos, retained, packetId, topic.Text(), payload))
  {
    hide EncodeLen, PacketLen, StringBytes, IntBytes, Scale, PublishBody, Header, IsPublish;
    ghost var p := Publish(dup, qos, retained, packetId, topic.Text(), payload);
    var remLen := PublishLength(qos, topic, |payload|);
    PublishSize(p);
    Sizes(packetId, topic.Text());
    Room(remLen);
    if PacketLen(remLen) > buflen {
      return BUFFER_TOO_SHORT;
    }
    var ptr := WriteChar(buf, 0, Header(PUBLISH, dup, qos, retained));
    ptr := WriteLength(buf, ptr, remLen);
    ptr := WriteBody(buf, ptr, qos, packetId, topic, payload, p);
    rc := ptr;
    PublishWritten(p, []);
    assert PublishPacket(p) + [] == buf[..rc];
  }

  // Topic, packet identifier and payload.
  method WriteBody(buf: array<byte>, ptr0: nat, qos: nat, packetId: nat, topic: MqttString, payload: seq<byte>,
                   ghost p: Publish)
    returns (ptr: nat)
    requires p.qos == qos && p.packetId == packetId && p.topic == topic.Text() && p.payload == payload
    requires topic.OneForm()
    requires ptr0 + |PublishBody(p)| <= buf.Length
    modifies buf
    ensures ptr == ptr0 + |PublishBody(p)| && buf[..ptr] == old(buf[..ptr0]) + PublishBody(p)
  {
    hide StringBytes, IntBytes, PublishBody;
    ghost var front := buf[..ptr0];
    PublishSize(p);
    Sizes(packetId, topic.Text());
    ptr := WriteString(buf, ptr0, topic);
    if qos > 0 {
      ptr := WriteInt(buf, ptr, packetId);
    }
    Copy(buf, ptr, payload);
    ptr := ptr + |payload|;
    PublishParts(front, p);
  }

  lemma PublishSize(p: Publish)
    ensures |PublishBody(p)| == 2 + |p.topic| + |p.payload| + if p.qos > 0 then 2 else 0
  {
  }

  lemma PublishParts(front: seq<byte>, p: Publish)
    ensures p.qos > 0 ==> front + StringBytes(p.topic) + IntBytes(p.packetId) + p.payload == front + PublishBody(p)
    ensures p.qos == 0 ==> front + StringBytes(p.topic) + p.payload == front + PublishBody(p)
  {
    hide StringBytes, IntBytes;
    assert StringBytes(p.topic) + [] == StringBytes(p.topic);
    assert front + (StringBytes(p.topic) + IntBytes(p.packetId) + p.payload)
           == front + StringBytes(p.topic) + IntBytes(p.packetId) + p.payload;
    assert front + (StringBytes(p.topic) + p.payload) == front + StringBytes(p.topic) + p.payload;
  }

  lemma Sizes(id: nat, s: seq<byte>)
    ensures |IntBytes(id)| == 2 && |StringBytes(s)| == 2 + |s|
  {
  }

  lemma Room(n: nat)
    requires n < Scale(4)
    ensures 1 + |EncodeLen(n)| + n <= PacketLen(n)
  {
  }

  // What MQTTDeserialize_publish finds: its return code, the fields if it gets that far, and
  // the length of the payload, which is below zero where the packet ends before the packet
  // identifier does.
  datatype Found = Found(rc: nat, fields: Option<Publish>, payloadlen: int)

  // The packet is memory from its first byte on; it reaches as far as the packet identifier
  // is read.
  predicate IdThere(b: seq<byte>)
    requires Packet(b)
  {
    var topic := StringAt(b, Start(b), Start(b) + Rem(b));
    KindOf(b[0]) == PUBLISH && QosOf(b[0]) > 0 && topic.Some? ==> topic.value.1 + 2 <= |b|
  }

  // The fields of a packet; after a bad topic the return code is the size of the length
  // field.
  function PublishIn(b: seq<byte>): Found
    requires Packet(b) && IdThere(b)
  {
    if KindOf(b[0]) != PUBLISH then Found(0, None, 0) else
      var qos, end := QosOf(b[0]), Start(b) + Rem(b);
      var topic := StringAt(b, Start(b), end);
      if topic.None? then Found(Start(b) - 1, None, 0) else
        var at := topic.value.1;
        var id := if qos > 0 then LdWord(b[at + 1], b[at]) else 0;
        var from := if qos > 0 then at + 2 else at;
        var payload := if from <= end then b[from..end] else [];
        Found(1, Some(Publish(DupOf(b[0]), qos, RetainOf(b[0]), id, topic.value.0, payload)), end - from)
  }

  // The length is below zero exactly where quality of service asks for an identifier and the
  // body has fewer than two bytes behind the topic.
  lemma ShortOfId(b: seq<byte>)
    requires Packet(b) && IdThere(b)
    ensures PublishIn(b).payloadlen < 0
            <==> KindOf(b[0]) == PUBLISH && QosOf(b[0]) > 0
                 && (var topic := StringAt(b, Start(b), Start(b) + Rem(b));
                     topic.Some? && Rem(b) < 2 + |topic.value.0| + 2)
  {
    hide HasLen, LenSize, LenValue, KindOf, DupOf, QosOf, RetainOf, LdWord;
  }

  // Where the content begins and ends: the length field of a packet in memory, decoded.
  method Bounds(b: seq<byte>) returns (curdata: nat, enddata: nat)
    requires Packet(b)
    ensures curdata == Start(b) && enddata == Start(b) + Rem(b) <= |b|
  {
    hide HasLen, LenSize, LenValue, FieldSum, FieldUsed;
    var src := new Source(b[1..]);
    var mylen, n := DecodeLen(src);
    EndWithin(b);
    curdata := 1 + n;
    enddata := curdata + mylen;
  }

  // MQTTDeserialize_publish.
  method DeserializePublish(b: seq<byte>) returns (r: Found)
    requires Packet(b) && IdThere(b)
    ensures r == PublishIn(b)
  {
    hide HasLen, LenSize, LenValue, StringAt, KindOf, DupOf, QosOf, RetainOf, LdWord, PublishIn;
    var header := b[0];
    NotFound(b);
    if KindOf(header) != PUBLISH {
      return Found(0, None, 0);
    }
    var dup, qos, retained := DupOf(header), QosOf(header), RetainOf(header);
    var curdata, enddata := Bounds(b);
    var rc := curdata - 1;
    var topic := ReadString(b, curdata, enddata);
    if topic.None? {
      return Found(rc, None, 0);
    }
    curdata := topic.value.1;
    FoundBehind(b, topic.value.0, curdata);
    var packetId := 0;
    if qos > 0 {
      packetId := LdWord(b[curdata + 1], b[curdata]);
      curdata := curdata + 2;
    }
    var payload := if curdata <= enddata then b[curdata..enddata] else [];
    return Found(1, Some(Publish(dup, qos, retained, packetId, topic.value.0, payload)), enddata - curdata);
  }

  // ---- SUBSCRIBE ----

  function RequestsBytes(rs: seq<Request>): seq<byte> {
    if rs == [] then [] else StringBytes(rs[0].filter) + [rs[0].qos] + RequestsBytes(rs[1..])
  }

  function SubscribeBody(packetId: nat, rs: seq<Request>): seq<byte> {
    IntBytes(packetId) + RequestsBytes(rs)
  }

  function SubscribePacket(dup: bool, packetId: nat, rs: seq<Request>): seq<byte> {
    [Header(SUBSCRIBE, dup, 1, false)] + EncodeLen(|SubscribeBody(packetId, rs)|) + SubscribeBody(packetId, rs)
  }

  // The requests a call is about.
  function Requests(filters: seq<MqttString>, qoss: seq<byte>): seq<Request>
    requires |filters| == |qoss|
  {
    seq(|filters|, i requires 0 <= i < |filters| => Request(filters[i].Text(), qoss[i]))
  }

  lemma {:induction false} RequestsJoin(a: seq<Request>, b: seq<Request>)
    ensures RequestsBytes(a + b) == RequestsBytes(a) + RequestsBytes(b)
  {
    hide StringBytes;
    if a == [] {
      assert a + b == b;
    } else {
      RequestsJoin(a[1..], b);
      assert (a + b)[0] == a[0] && (a + b)[1..] == a[1..] + b;
      Associate(StringBytes(a[0].filter) + [a[0].qos], RequestsBytes(a[1..]), RequestsBytes(b));
    }
  }

  lemma RequestsMore(rs: seq<Request>, i: nat)
    requires i < |rs|
    ensures RequestsBytes(rs[..i + 1]) == RequestsBytes(rs[..i]) + (StringBytes(rs[i].filter) + [rs[i].qos])
    ensures |RequestsBytes(rs[..i + 1])| == |RequestsBytes(rs[..i])| + 3 + |rs[i].filter|
    ensures |RequestsBytes(rs[..i + 1])| <= |RequestsBytes(rs)|
  {
    hide StringBytes;
    assert rs[..i + 1] == rs[..i] + [rs[i]] && rs == rs[..i + 1] + rs[i + 1..];
    RequestsJoin(rs[..i], [rs[i]]);
    RequestsJoin(rs[..i + 1], rs[i + 1..]);
    assert RequestsBytes([rs[i]]) == StringBytes(rs[i].filter) + [rs[i].qos] + RequestsBytes([]);
    Sizes(0, rs[i].filter);
  }

  // MQTTSerialize_subscribeLength.
  method SubscribeLength(filters: seq<MqttString>, ghost qoss: seq<byte>) returns (len: nat)
    requires |filters| == |qoss|
    ensures forall id :: len == |SubscribeBody(id, Requests(filters, qoss))|
  {
    hide RequestsBytes, StringBytes;
    len := 2;
    ghost var rs := Requests(filters, qoss);
    NoRequests(rs);
    var i := 0;
    while i < |filters|
      invariant i <= |filters| && len == 2 + |RequestsBytes(rs[..i])|
    {
      RequestsMore(rs, i);
      len := len + 2 + StrLen(filters[i]) + 1;
      i := i + 1;
    }
    assert rs[..i] == rs;
  }

  lemma NoRequests(rs: seq<Request>)
    ensures RequestsBytes(rs[..0]) == []
  {
  }

  // MQTTSerialize_subscribe.
  method SerializeSubscribe(buf: array<byte>, buflen: nat, dup: bool, packetId: nat, filters: seq<MqttString>,
                            qoss: seq<byte>) returns (rc: int)
    requires buflen <= buf.Length && packetId <= 65535 && |filters| == |qoss|
    requires forall i :: 0 <= i < |filters| ==> filters[i].OneForm() && |filters[i].Text()| <= 65535
    requires |SubscribeBody(packetId, Requests(filters, qoss))| < Scale(4)
    modifies buf
    ensures var n := |SubscribeBody(packetId, Requests(filters, qoss))|;
            if PacketLen(n) > buflen then rc == -2
            else rc == 1 + |EncodeLen(n)| + n && rc <= PacketLen(n) <= buflen
                 && buf[..rc] == SubscribePacket(dup, packetId, Requests(filters, qoss))
                 && IsSubscribe(buf[..rc], |EncodeLen(n)|, dup, packetId, Requests(filters, qoss))
  {
    hide EncodeLen, PacketLen, StringBytes, IntBytes, Scale, RequestsBytes, Header, IsSubscribe;
    ghost var rs := Requests(filters, qoss);
    var remLen := SubscribeLength(filters, qoss);
    assert remLen == |SubscribeBody(packetId, rs)|;
    Room(remLen);
    Sizes(packetId, []);
    if PacketLen(remLen) > buflen {
      return BUFFER_TOO_SHORT;
    }
    var ptr := WriteChar(buf, 0, Header(SUBSCRIBE, dup, 1, false));
    ptr := WriteLength(buf, ptr, remLen);
    ghost var front := buf[..ptr];
    ptr := WriteInt(buf, ptr, packetId);
    ptr := WriteRequests(buf, ptr, filters, qoss);
    rc := ptr;
    assert front + IntBytes(packetId) + RequestsBytes(rs) == front + SubscribeBody(packetId, rs);
    SubscribeWritten(dup, packetId, rs, []);
    assert SubscribePacket(dup, packetId, rs) + [] == buf[..rc];
  }

  // The loop over the topic filters.
  method WriteRequests(buf: array<byte>, ptr0: nat, filters: seq<MqttString>, qoss: seq<byte>) returns (ptr: nat)
    requires |filters| == |qoss| && forall i :: 0 <= i < |filters| ==> filters[i].OneForm()
    requires ptr0 + |RequestsBytes(Requests(filters, qoss))| <= buf.Length
    modifies buf
    ensures ptr == ptr0 + |RequestsBytes(Requests(filters, qoss))|
    ensures buf[..ptr] == old(buf[..ptr0]) + RequestsBytes(Requests(filters, qoss))
  {
    hide StringBytes, IntBytes, RequestsBytes;
    ghost var rs, before := Requests(filters, qoss), buf[..ptr0];
    ptr := ptr0;
    NoRequests(rs);
    assert before + [] == before;
    var i := 0;
    while i < |filters|
      invariant i <= |filters| && ptr == ptr0 + |RequestsBytes(rs[..i])| <= buf.Length
      invariant buf[..ptr] == before + RequestsBytes(rs[..i])
    {
      RequestsMore(rs, i);
      ghost var done := buf[..ptr];
      ptr := WriteString(buf, ptr, filters[i]);
      ptr := WriteChar(buf, ptr, qoss[i]);
      assert done + StringBytes(rs[i].filter) + [rs[i].qos] == before + RequestsBytes(rs[..i + 1]);
      i := i + 1;
    }
    assert rs[..i] == rs;
  }

  // The requests between two positions, at most n of them.
  function RequestsIn(b: seq<byte>, ptr: nat, end: nat, n: nat): (r: Option<seq<Request>>)
    requires end <= |b|
    ensures r.Some? ==> |r.value| <= n
    decreases n
  {
    if ptr >= end then Some([])
    else if n == 0 then None
    else
      var s := StringAt(b, ptr, end);
      if s.None? || s.value.1 >= end then None else
        var rest := RequestsIn(b, s.value.1 + 1, end, n - 1);
        if rest.None? then None else Some([Request(s.value.0, b[s.value.1])] + rest.value)
  }

  // What MQTTDeserialize_subscribe finds: a packet it accepts or rejects.
  datatype Subscription = Accepted(dup: bool, packetId: nat, requests: seq<Request>) | Rejected

  // The packet is memory from its first byte on, as far as the packet identifier.
  predicate WordThere(b: seq<byte>)
    requires Packet(b)
  {
    KindOf(b[0]) == SUBSCRIBE ==> Start(b) + 2 <= |b|
  }

  function SubscribeIn(b: seq<byte>, maxcount: nat): Subscription
    requires Packet(b) && WordThere(b)
  {
    var end := Start(b) + Rem(b);
    if KindOf(b[0]) != SUBSCRIBE then Rejected else
      var rs := RequestsIn(b, Start(b) + 2, end, maxcount);
      if rs.None? then Rejected else Accepted(DupOf(b[0]), LdWord(b[Start(b) + 1], b[Start(b)]), rs.value)
  }

  // A body too short for the identifier is accepted as one without requests, with an
  // identifier from behind the packet.
  lemma ShortSubscribe(b: seq<byte>, maxcount: nat)
    requires Packet(b) && WordThere(b) && KindOf(b[0]) == SUBSCRIBE && Rem(b) < 2
    ensures SubscribeIn(b, maxcount) == Accepted(DupOf(b[0]), LdWord(b[Start(b) + 1], b[Start(b)]), [])
  {
    hide HasLen, LenSize, LenValue, KindOf, DupOf, LdWord;
  }

  // MQTTDeserialize_subscribe, filling the arrays of the caller.
  method DeserializeSubscribe(b: seq<byte>, maxcount: nat, topics: array<seq<byte>>, qoss: array<byte>)
    returns (rc: int, dup: bool, packetId: nat, count: nat)
    requires Packet(b) && WordThere(b) && maxcount <= topics.Length && maxcount <= qoss.Length
    modifies topics, qoss
    ensures rc == 1 <==> SubscribeIn(b, maxcount).Accepted?
    ensures rc != 1 ==> rc == -1
    ensures rc == 1
            ==> count <= maxcount && SubscribeIn(b, maxcount) == Accepted(dup, packetId, Filled(topics, qoss, count))
  {
    hide HasLen, LenSize, LenValue, StringAt, KindOf, DupOf, RequestsIn, Onto, LdWord;
    rc, dup, packetId, count := READ_ERROR, false, 0, 0;
    if KindOf(b[0]) != SUBSCRIBE {
      return;
    }
    dup := DupOf(b[0]);
    var curdata, enddata := Bounds(b);
    packetId := LdWord(b[curdata + 1], b[curdata]);
    curdata := curdata + 2;
    ghost var all := RequestsIn(b, curdata, enddata, maxcount);
    assert Filled(topics, qoss, 0) == [];
    OntoMore([], Request([], 0), all);
    while curdata < enddata
      invariant count <= maxcount
      invariant all == Onto(Filled(topics, qoss, count), RequestsIn(b, curdata, enddata, maxcount - count))
      decreases enddata - curdata
    {
      RequestsStep(b, curdata, enddata, maxcount - count, Filled(topics, qoss, count));
      if count == maxcount {
        return;
      }
      var topic := ReadString(b, curdata, enddata);
      if topic.None? {
        return;
      }
      ghost var had := Filled(topics, qoss, count);
      topics[count] := topic.value.0;
      curdata := topic.value.1;
      if curdata >= enddata {
        return;
      }
      qoss[count] := b[curdata];
      curdata := curdata + 1;
      count := count + 1;
      assert Filled(topics, qoss, count) == had + [Request(topic.value.0, b[curdata - 1])];
    }
    rc := 1;
    RequestsEnd(b, curdata, enddata, maxcount - count, Filled(topics, qoss, count));
  }

  // One turn of the loop, from the requests still to come.
  lemma RequestsStep(b: seq<byte>, ptr: nat, end: nat, n: nat, had: seq<Request>)
    requires ptr < end <= |b|
    ensures n == 0 ==> Onto(had, RequestsIn(b, ptr, end, n)) == None
    ensures n > 0 ==>
              var s := StringAt(b, ptr, end);
              Onto(had, RequestsIn(b, ptr, end, n))
                == if s.None? || s.value.1 >= end then None
                   else Onto(had + [Request(s.value.0, b[s.value.1])], RequestsIn(b, s.value.1 + 1, end, n - 1))
  {
    hide StringAt;
    var s := StringAt(b, ptr, end);
    if n > 0 && s.Some? && s.value.1 < end {
      OntoMore(had, Request(s.value.0, b[s.value.1]), RequestsIn(b, s.value.1 + 1, end, n - 1));
    }
  }

  lemma RequestsEnd(b: seq<byte>, ptr: nat, end: nat, n: nat, had: seq<Request>)
    requires end <= ptr && end <= |b|
    ensures Onto(had, RequestsIn(b, ptr, end, n)) == Some(had)
  {
    assert had + [] == had;
  }

  // The requests in the first places of the arrays.
  ghost function Filled(topics: array<seq<byte>>, qoss: array<byte>, count: nat): seq<Request>
    requires count <= topics.Length && count <= qoss.Length
    reads topics, qoss
  {
    seq(count, i requires 0 <= i < count reads topics, qoss => Request(topics[i], qoss[i]))
  }

  ghost function Onto(had: seq<Request>, r: Option<seq<Request>>): Option<seq<Request>> {
    if r.None? then None else Some(had + r.value)
  }

  lemma OntoMore(had: seq<Request>, x: Request, r: Option<seq<Request>>)
    ensures Onto(had + [x], r) == Onto(had, if r.None? then None else Some([x] + r.value))
    ensures Onto([], r) == r
  {
    if r.Some? { assert had + [x] + r.value == had + ([x] + r.value) && [] + r.value == r.value; }
  }

  // ---- On the wire ----

  lemma FirstByteIs(h: byte, kind: nat, dup: bool, qos: nat, retain: bool)
    ensures FirstByte(h, kind, dup, qos, retain)
            <==> KindOf(h) == kind && DupOf(h) == dup && QosOf(h) == qos && RetainOf(h) == retain
  {
    HighBits(h);
    LowBits(h);
    hide Bit;
  }

  lemma HighBits(h: byte)
    ensures KindOf(h) == 8 * One(Bit(h, 7)) + 4 * One(Bit(h, 6)) + 2 * One(Bit(h, 5)) + One(Bit(h, 4))
  {
    hide Bit;
    BitIs(h, 4, h / 16);
    BitIs(h, 5, h / 32);
    BitIs(h, 6, h / 64);
    BitIs(h, 7, h / 128);
    Halves(h);
  }

  lemma Halves(h: byte)
    ensures h / 16 == 8 * (h / 128 % 2) + 4 * (h / 64 % 2) + 2 * (h / 32 % 2) + h / 16 % 2
  {
    var a, b, c, d := h / 16, h / 32, h / 64, h / 128;
    assert a == 2 * b + a % 2;
    assert b == 2 * c + b % 2;
    assert c == 2 * d + c % 2;
  }

  lemma LowBits(h: byte)
    ensures QosOf(h) == 2 * One(Bit(h, 2)) + One(Bit(h, 1)) && DupOf(h) == Bit(h, 3) && RetainOf(h) == Bit(h, 0)
  {
    hide Bit;
    BitIs(h, 0, h);
    BitIs(h, 1, h / 2);
    BitIs(h, 2, h / 4);
    BitIs(h, 3, h / 8);
    Quarter(h);
  }

  lemma Quarter(h: byte)
    ensures h / 2 % 4 == 2 * (h / 4 % 2) + h / 2 % 2
  {
    var a, b := h / 2, h / 4;
    assert a == 2 * b + a % 2;
    assert b == 2 * (b / 2) + b % 2;
  }

  lemma BitIs(h: byte, k: nat, q: nat)
    requires k < 8 && q == h / [1, 2, 4, 8, 16, 32, 64, 128][k]
    ensures One(Bit(h, k)) == q % 2
  {
  }

  // The encoded length is the field.
  lemma LengthWritten(h: byte, n: nat, rest: seq<byte>)
    requires n < Scale(4)
    ensures LengthField([h] + EncodeLen(n) + rest, |EncodeLen(n)|, n)
  {
    hide EncodeLen, Scale;
    SizeSteps(n);
    var a := n / 128;
    var c := a / 128;
    Digit(n);
    Digit(a);
    Digit(c);
    EncodedDigits(n, a, c);
    var b, e := [h] + EncodeLen(n) + rest, EncodeLen(n);
    assert forall i :: 0 <= i < |e| ==> b[1 + i] == e[i];
  }

  lemma Digit(n: nat)
    ensures n == n % 128 + 128 * (n / 128)
  {
  }

  lemma EncodedDigits(n: nat, a: nat, c: nat)
    requires a == n / 128 && c == a / 128 && c < 16384
    ensures EncodeLen(n) == if n < 128 then [n] else if a < 128 then [n % 128 + 128, a]
                            else if c < 128 then [n % 128 + 128, a % 128 + 128, c]
                            else [n % 128 + 128, a % 128 + 128, c % 128 + 128, c / 128]
  {
    hide EncodeLen;
    EncodedFirst(n);
    EncodedFirst(a);
    EncodedFirst(c);
    EncodedFirst(c / 128);
  }

  lemma EncodedFirst(n: nat)
    ensures EncodeLen(n) == if n < 128 then [n] else [n % 128 + 128] + EncodeLen(n / 128)
  {
  }

  lemma LengthRead(b: seq<byte>, n: nat, len: nat)
    requires LengthField(b, n, len)
    ensures HasLen(b[1..], MAX_LENGTH_BYTES) && LenSize(b[1..], MAX_LENGTH_BYTES) == n
    ensures LenValue(b[1..], MAX_LENGTH_BYTES) == len
  {
    var s := b[1..];
    assert forall i :: 0 <= i < n ==> s[i] == b[i + 1];
    FieldRead(s, n, MAX_LENGTH_BYTES);
    SevensAre(s, n);
  }

  ghost function Sevens(s: seq<byte>, n: nat): nat
    requires 0 < n <= |s|
  {
    Seven(s[0]) + if n == 1 then 0 else 128 * Sevens(s[1..], n - 1)
  }

  lemma {:induction false} FieldRead(s: seq<byte>, n: nat, k: nat)
    requires 0 < n <= k && n <= |s| && (forall i :: 0 <= i < n - 1 ==> s[i] >= 128) && s[n - 1] < 128
    ensures HasLen(s, k) && LenSize(s, k) == n && LenValue(s, k) == Sevens(s, n)
    decreases n
  {
    if n > 1 { FieldRead(s[1..], n - 1, k - 1); }
  }

  lemma SevensAre(s: seq<byte>, n: nat)
    requires 0 < n <= 4 && n <= |s|
    ensures Sevens(s, n) == Seven(s[0]) + (if n > 1 then 128 * Seven(s[1]) else 0)
                            + (if n > 2 then 16384 * Seven(s[2]) else 0) + if n > 3 then 2097152 * Seven(s[3]) else 0
  {
    hide Sevens;
    SevensStep(s, n);
    if n > 1 { SevensStep(s[1..], n - 1); }
    if n > 2 { SevensStep(s[2..], n - 2); }
    if n > 3 { SevensStep(s[3..], 1); }
    if n > 1 { assert s[1..][1..] == s[2..]; }
    if n > 2 { assert s[2..][1..] == s[3..]; }
  }

  lemma SevensStep(s: seq<byte>, n: nat)
    requires 0 < n <= |s|
    ensures Sevens(s, n) == Seven(s[0]) + if n == 1 then 0 else 128 * Sevens(s[1..], n - 1)
  {
  }

  // ---- Any packet on the wire ----

  lemma {:induction false} FieldFound(s: seq<byte>, k: nat)
    requires HasLen(s, k)
    ensures var n := LenSize(s, k); (forall i :: 0 <= i < n - 1 ==> s[i] >= 128) && s[n - 1] < 128
    decreases k
  {
    if s[0] >= 128 {
      FieldFound(s[1..], k - 1);
      var n := LenSize(s, k);
      forall i | 0 <= i < n - 1 ensures s[i] >= 128 {
        if i > 0 { assert s[i] == s[1..][i - 1]; }
      }
    }
  }

  // A packet is read where there is one: a length field, and as many bytes as it says.
  lemma PacketOnWire(s: seq<byte>)
    ensures Packet(s) <==> exists n: nat, len: nat :: LengthField(s, n, len) && 1 + n + len <= |s|
  {
    hide LengthField, HasLen, LenSize, LenValue;
    if Packet(s) {
      var n := LenSize(s[1..], MAX_LENGTH_BYTES);
      FieldFound(s[1..], MAX_LENGTH_BYTES);
      FieldRead(s[1..], n, MAX_LENGTH_BYTES);
      FieldIs(s, n);
      assert LengthField(s, n, Rem(s));
    }
    if n: nat, len: nat :| LengthField(s, n, len) && 1 + n + len <= |s| {
      LengthRead(s, n, len);
      NotEmpty(s, n, len);
    }
  }

  lemma NotEmpty(s: seq<byte>, n: nat, len: nat)
    requires LengthField(s, n, len)
    ensures 0 < n < |s|
  {
  }

  lemma FieldIs(s: seq<byte>, n: nat)
    requires 0 < n <= 4 && n < |s| && (forall i :: 0 <= i < n - 1 ==> s[1..][i] >= 128) && s[1..][n - 1] < 128
    ensures LengthField(s, n, Sevens(s[1..], n))
  {
    hide Sevens;
    SevensAre(s[1..], n);
    forall i | 1 <= i < n ensures s[i] >= 128 { assert s[i] == s[1..][i - 1]; }
  }

  // Its type is the high half of its first byte, and it is stored with the length field put
  // back in at most as many bytes.
  lemma StoredOnWire(s: seq<byte>, n: nat, len: nat)
    requires LengthField(s, n, len) && 1 + n + len <= |s|
    ensures Packet(s) && Start(s) == 1 + n && Rem(s) == len
    ensures Type(s) == 8 * One(Bit(s[0], 7)) + 4 * One(Bit(s[0], 6)) + 2 * One(Bit(s[0], 5)) + One(Bit(s[0], 4))
    ensures var m := |Stored(s)| - 1 - len;
            1 <= m <= n && LengthField(Stored(s), m, len) && Stored(s)[0] == s[0]
            && Stored(s)[1 + m..] == s[1 + n..1 + n + len]
  {
    hide LengthField, HasLen, LenSize, LenValue, EncodeLen, Bit, Scale;
    LengthRead(s, n, len);
    NotEmpty(s, n, len);
    HighBits(s[0]);
    FieldFits(s[1..], n);
    LengthWritten(s[0], len, s[1 + n..1 + n + len]);
  }

  lemma FieldFits(s: seq<byte>, n: nat)
    requires HasLen(s, 4) && LenSize(s, 4) == n
    ensures LenValue(s, 4) < Scale(4) && 1 <= |EncodeLen(LenValue(s, 4))| <= n <= 4
  {
    hide EncodeLen, Scale;
    LenBound(s, 4);
    ShortestLen(s, 4);
  }

  // No field of a value is shorter than the encoded one.
  lemma {:induction false} ShortestLen(s: seq<byte>, k: nat)
    requires HasLen(s, k)
    ensures |EncodeLen(LenValue(s, k))| <= LenSize(s, k)
    decreases k
  {
    var v := LenValue(s, k);
    if s[0] >= 128 {
      ShortestLen(s[1..], k - 1);
      assert v / 128 == LenValue(s[1..], k - 1);
    }
  }

  // ---- PUBLISH on the wire ----

  // What is serialized is that packet.
  lemma PublishWritten(p: Publish, rest: seq<byte>)
    requires p.qos < 4 && p.packetId <= 65535 && |p.topic| <= 65535 && |PublishBody(p)| < Scale(4)
    ensures IsPublish(PublishPacket(p) + rest, |EncodeLen(|PublishBody(p)|)|, p)
  {
    hide EncodeLen, Header, FirstByte, LengthField, StringBytes, IntBytes, PublishBody, KindOf, DupOf, QosOf, RetainOf;
    var body := PublishBody(p);
    var h, e := Header(PUBLISH, p.dup, p.qos, p.retained), EncodeLen(|body|);
    var b := PublishPacket(p) + rest;
    assert b == [h] + e + (body + rest);
    HeaderBack(PUBLISH, p.dup, p.qos, p.retained);
    FirstByteIs(h, PUBLISH, p.dup, p.qos, p.retained);
    LengthWritten(h, |body|, body + rest);
    PublishSize(p);
    BodyFields(b, [h] + e, p, rest);
  }

  lemma BodyFields(b: seq<byte>, front: seq<byte>, p: Publish, rest: seq<byte>)
    requires b == front + (PublishBody(p) + rest) && p.packetId <= 65535 && |p.topic| <= 65535
    ensures var id := if p.qos > 0 then 2 else 0;
            && StringField(b, |front|, p.topic) && |front| + 2 + |p.topic| + id + |p.payload| <= |b|
            && (p.qos > 0 ==> WordField(b, |front| + 2 + |p.topic|, p.packetId))
            && b[|front| + 2 + |p.topic| + id..|front| + 2 + |p.topic| + id + |p.payload|] == p.payload
  {
    hide StringField, WordField, StringBytes, IntBytes;
    var id := if p.qos > 0 then IntBytes(p.packetId) else [];
    Sizes(p.packetId, p.topic);
    StringWritten(b, front, p.topic, id + p.payload + rest);
    var upto := front + StringBytes(p.topic);
    if p.qos > 0 { WordWritten(b, upto, p.packetId, p.payload + rest); }
    assert b == upto + id + (p.payload + rest);
    InTheMiddle(b, upto + id, p.payload, rest);
  }

  lemma InTheMiddle(b: seq<byte>, front: seq<byte>, d: seq<byte>, rest: seq<byte>)
    requires b == front + (d + rest)
    ensures |front| + |d| <= |b| && b[|front|..|front| + |d|] == d
  {
    assert b == front + d + rest;
  }

  lemma WordWritten(b: seq<byte>, front: seq<byte>, n: nat, rest: seq<byte>)
    requires b == front + IntBytes(n) + rest && n <= 65535
    ensures WordField(b, |front|, n)
  {
    assert b[|front|] == IntBytes(n)[0] && b[|front| + 1] == IntBytes(n)[1];
  }

  lemma StringWritten(b: seq<byte>, front: seq<byte>, s: seq<byte>, rest: seq<byte>)
    requires b == front + (StringBytes(s) + rest) && |s| <= 65535
    ensures StringField(b, |front|, s)
  {
    assert b == front + IntBytes(|s|) + (s + rest);
    WordWritten(b, front, |s|, s + rest);
    assert b[|front| + 2..|front| + 2 + |s|] == s;
  }

  // And such a packet, however its length is written, is what is found.
  lemma PublishFound(b: seq<byte>, n: nat, p: Publish)
    requires IsPublish(b, n, p)
    ensures Packet(b) && IdThere(b)
    ensures PublishIn(b) == Found(1, Some(if p.qos > 0 then p else p.(packetId := 0)), |p.payload|)
  {
    hide FirstByte, LengthField, KindOf, DupOf, QosOf, RetainOf, StringAt, StringField, HasLen, LenSize,
         LenValue, LdWord,
         WordField, PublishIn;
    var id := if p.qos > 0 then 2 else 0;
    var len := 2 + |p.topic| + id + |p.payload|;
    var at, end := 3 + n + |p.topic|, 1 + n + len;
    FirstByteIs(b[0], 3, p.dup, p.qos, p.retained);
    LengthRead(b, n, len);
    assert Packet(b) && Start(b) == 1 + n && Start(b) + Rem(b) == end;
    StringFound(b, 1 + n, p.topic, end);
    if p.qos > 0 { WordFound(b, at, p.packetId); }
    assert IdThere(b);
    FoundBehind(b, p.topic, at);
    assert b[at + id..end] == p.payload;
    assert PublishIn(b).payloadlen == |p.payload|;
  }

  lemma NotFound(b: seq<byte>)
    requires Packet(b) && IdThere(b)
    ensures KindOf(b[0]) != PUBLISH ==> PublishIn(b) == Found(0, None, 0)
    ensures KindOf(b[0]) == PUBLISH && StringAt(b, Start(b), Start(b) + Rem(b)).None?
            ==> PublishIn(b) == Found(Start(b) - 1, None, 0)
  {
    hide KindOf, DupOf, QosOf, RetainOf, StringAt, HasLen, LenSize, LenValue, LdWord;
  }

  // What is found behind a topic.
  lemma FoundBehind(b: seq<byte>, topic: seq<byte>, at: nat)
    requires Packet(b) && IdThere(b) && KindOf(b[0]) == PUBLISH
    requires StringAt(b, Start(b), Start(b) + Rem(b)) == Some((topic, at))
    ensures var qos, end := QosOf(b[0]), Start(b) + Rem(b);
            var from := if qos > 0 then at + 2 else at;
            && (qos > 0 ==> at + 2 <= |b|)
            && PublishIn(b) == Found(1, Some(Publish(DupOf(b[0]), qos, RetainOf(b[0]),
                 if qos > 0 then LdWord(b[at + 1], b[at])
                     else 0, topic, if from <= end then b[from..end] else [])), end - from)
  {
    hide KindOf, DupOf, QosOf, RetainOf, StringAt, HasLen, LenSize, LenValue, LdWord;
  }

  lemma WordFound(b: seq<byte>, p: nat, n: nat)
    requires WordField(b, p, n)
    ensures p + 2 <= |b| && LdWord(b[p + 1], b[p]) == n
  {
  }

  lemma StringFound(b: seq<byte>, p: nat, s: seq<byte>, end: nat)
    requires StringField(b, p, s) && p + 2 + |s| <= end <= |b|
    ensures StringAt(b, p, end) == Some((s, p + 2 + |s|))
  {
  }

  // PUBLISH round trip: what was serialized is what deserializing yields, except that a
  // packet identifier travels with quality of service 1 and up only.
  lemma PublishRoundTrip(p: Publish)
    requires p.qos < 4 && p.packetId <= 65535 && |p.topic| <= 65535 && |PublishBody(p)| < Scale(4)
    ensures Packet(PublishPacket(p))
    ensures IdThere(PublishPacket(p))
    ensures PublishIn(PublishPacket(p)) == Found(1, Some(if p.qos > 0 then p else p.(packetId := 0)), |p.payload|)
  {
    hide IsPublish, PublishIn, EncodeLen, PublishPacket;
    PublishWritten(p, []);
    assert PublishPacket(p) + [] == PublishPacket(p);
    PublishFound(PublishPacket(p), |EncodeLen(|PublishBody(p)|)|, p);
  }

  // ---- SUBSCRIBE on the wire ----

  lemma SubscribeWritten(dup: bool, packetId: nat, rs: seq<Request>, rest: seq<byte>)
    requires packetId <= 65535 && |SubscribeBody(packetId, rs)| < Scale(4)
    requires forall i :: 0 <= i < |rs| ==> |rs[i].filter| <= 65535
    ensures IsSubscribe(SubscribePacket(dup, packetId, rs) + rest, |EncodeLen(|SubscribeBody(packetId, rs)|)|, dup,
                        packetId, rs)
  {
    hide EncodeLen, Header, FirstByte, LengthField, IntBytes, RequestsBytes, KindOf, DupOf, QosOf, RetainOf, WordField,
         RequestFields;
    var body := SubscribeBody(packetId, rs);
    var h, e := Header(SUBSCRIBE, dup, 1, false), EncodeLen(|body|);
    var b := SubscribePacket(dup, packetId, rs) + rest;
    assert b == [h] + e + (body + rest) && b[0] == h;
    HeaderBack(SUBSCRIBE, dup, 1, false);
    FirstByteIs(h, SUBSCRIBE, dup, 1, false);
    LengthWritten(h, |body|, body + rest);
    assert [h] + e + (body + rest) == [h] + EncodeLen(|body|) + (body + rest);
    var end := 1 + |e| + |body|;
    assert b[..end] == [h] + e + IntBytes(packetId) + RequestsBytes(rs);
    WordWritten(b[..end], [h] + e, packetId, RequestsBytes(rs));
    Sizes(packetId, []);
    RequestsWritten(b[..end], [h] + e + IntBytes(packetId), rs);
  }

  lemma {:induction false} RequestsWritten(b: seq<byte>, front: seq<byte>, rs: seq<Request>)
    requires b == front + RequestsBytes(rs) && forall i :: 0 <= i < |rs| ==> |rs[i].filter| <= 65535
    ensures RequestFields(b, |front|, rs)
    decreases rs
  {
    hide StringBytes, StringField;
    if rs != [] {
      var r, more := rs[0], RequestsBytes(rs[1..]);
      Sizes(0, r.filter);
      assert b == front + (StringBytes(r.filter) + ([r.qos] + more));
      StringWritten(b, front, r.filter, [r.qos] + more);
      var next := front + StringBytes(r.filter) + [r.qos];
      assert b == next + more && b[|next| - 1] == r.qos;
      RequestsWritten(b, next, rs[1..]);
    }
  }

  lemma SubscribeFound(b: seq<byte>, n: nat, dup: bool, packetId: nat, rs: seq<Request>, maxcount: nat)
    requires IsSubscribe(b, n, dup, packetId, rs) && |rs| <= maxcount
    ensures Packet(b) && WordThere(b) && SubscribeIn(b, maxcount) == Accepted(dup, packetId, rs)
  {
    hide FirstByte, LengthField, KindOf, DupOf, QosOf, RetainOf, RequestFields, RequestsIn, HasLen, LenSize, LenValue;
    var end: nat :| end >= 1 + n && LengthField(b, n, end - (1 + n)) && end <= |b|
                    && WordField(b[..end], 1 + n, packetId) && RequestFields(b[..end], 3 + n, rs);
    FirstByteIs(b[0], 8, dup, 1, false);
    LengthRead(b, n, end - (1 + n));
    RequestsFound(b, 3 + n, end, rs, maxcount);
  }

  lemma {:induction false} RequestsFound(b: seq<byte>, p: nat, end: nat, rs: seq<Request>, max: nat)
    requires end <= |b| && RequestFields(b[..end], p, rs) && |rs| <= max
    ensures RequestsIn(b, p, end, max) == Some(rs)
    decreases rs
  {
    hide StringAt, StringField, RequestFields, RequestsIn;
    if rs == [] {
      NoMore(b, p, end, max);
    } else {
      var q := p + 2 + |rs[0].filter|;
      FirstRequest(b[..end], p, rs);
      StringFound(b[..end], p, rs[0].filter, end);
      StringUpTo(b, p, end);
      RequestsFound(b, q + 1, end, rs[1..], max - 1);
      assert b[..end][q] == b[q];
      OneRequest(b, p, end, rs, max);
    }
  }

  lemma NoMore(b: seq<byte>, p: nat, end: nat, max: nat)
    requires end <= |b| && RequestFields(b[..end], p, [])
    ensures RequestsIn(b, p, end, max) == Some([])
  {
  }

  lemma FirstRequest(b: seq<byte>, p: nat, rs: seq<Request>)
    requires RequestFields(b, p, rs) && rs != []
    ensures var q := p + 2 + |rs[0].filter|;
            StringField(b, p, rs[0].filter) && q < |b| && b[q] == rs[0].qos && RequestFields(b, q + 1, rs[1..])
  {
  }

  lemma OneRequest(b: seq<byte>, p: nat, end: nat, rs: seq<Request>, max: nat)
    requires rs != [] && max > 0 && p + 2 + |rs[0].filter| < end <= |b|
    requires StringAt(b, p, end) == Some((rs[0].filter, p + 2 + |rs[0].filter|))
    requires b[p + 2 + |rs[0].filter|] == rs[0].qos
    requires RequestsIn(b, p + 2 + |rs[0].filter| + 1, end, max - 1) == Some(rs[1..])
    ensures RequestsIn(b, p, end, max) == Some(rs)
  {
    hide StringAt;
    assert rs == [rs[0]] + rs[1..];
  }

  lemma StringUpTo(b: seq<byte>, p: nat, end: nat)
    requires p <= end <= |b|
    ensures StringAt(b[..end], p, end) == StringAt(b, p, end)
  {
    var c := b[..end];
    if end - p > 1 {
      assert c[p] == b[p] && c[p + 1] == b[p + 1];
      var n := LdWord(b[p + 1], b[p]);
      if p + 2 + n <= end { assert c[p + 2..p + 2 + n] == b[p + 2..p + 2 + n]; }
    }
  }

  // SUBSCRIBE round trip, for any number of requests the reader has room for.
  lemma SubscribeRoundTrip(dup: bool, packetId: nat, rs: seq<Request>, maxcount: nat)
    requires packetId <= 65535 && |rs| <= maxcount && |SubscribeBody(packetId, rs)| < Scale(4)
    requires forall i :: 0 <= i < |rs| ==> |rs[i].filter| <= 65535
    ensures Packet(SubscribePacket(dup, packetId, rs)) && WordThere(SubscribePacket(dup, packetId, rs))
    ensures SubscribeIn(SubscribePacket(dup, packetId, rs), maxcount) == Accepted(dup, packetId, rs)
  {
    hide IsSubscribe, SubscribeIn, EncodeLen, SubscribePacket;
    SubscribeWritten(dup, packetId, rs, []);
    assert SubscribePacket(dup, packetId, rs) + [] == SubscribePacket(dup, packetId, rs);
    SubscribeFound(SubscribePacket(dup, packetId, rs), |EncodeLen(|SubscribeBody(packetId, rs)|)|, dup, packetId, rs,
                   maxcount);
  }
}
