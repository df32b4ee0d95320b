// The sending end of the loader transfer (tools/xfer/flash_upg.c, wait_ack,
// send_soh_packet, xmodem_send), and both ends in lock step over a line that damages
// copies of blocks.
module XmodemSend {
  import opened Xmodem

  const FRAME_TAIL := 130

  // ---- The receiver fed with bytes ----

  function Feed(r: Rx, bs: seq<octet>, crc32: seq<octet> -> nat): (o: (Rx, seq<octet>))
    requires Sound(r)
    ensures Sound(o.0)
    decreases |bs|
  {
    if bs == [] then (r, []) else
      NextSound(r, Byte(bs[0]), crc32);
      var (r1, o1) := Next(r, Byte(bs[0]), crc32);
      var (r2, o2) := Feed(r1, bs[1..], crc32);
      (r2, o1 + o2)
  }

  lemma Nothing(r: Rx, crc32: seq<octet> -> nat)
    requires Sound(r)
    ensures Feed(r, [], crc32) == (r, []) && After(r, [], crc32) == r
  {
  }

  lemma {:induction false} FeedJoin(r: Rx, a: seq<octet>, b: seq<octet>, crc32: seq<octet> -> nat)
    requires Sound(r)
    ensures var x := Feed(r, a, crc32); var y := Feed(x.0, b, crc32);
            Feed(r, a + b, crc32) == (y.0, x.1 + y.1)
    decreases |a|
  {
    hide Next;
    if a == [] {
      assert a + b == b && [] + Feed(r, b, crc32).1 == Feed(r, b, crc32).1;
    } else {
      NextSound(r, Byte(a[0]), crc32);
      var (r1, o1) := Next(r, Byte(a[0]), crc32);
      FeedJoin(r1, a[1..], b, crc32);
      assert (a + b)[1..] == a[1..] + b;
      var x := Feed(r1, a[1..], crc32);
      var y := Feed(x.0, b, crc32);
      assert o1 + (x.1 + y.1) == o1 + x.1 + y.1;
    }
  }

  lemma {:induction false} FeedData(r: Rx, bs: seq<octet>, crc32: seq<octet> -> nat)
    requires Sound(r) && r.phase == Data && bs != [] && |r.got| + |bs| == BLOCK
    ensures Feed(r, bs, crc32) == (r.(phase := Hi, got := r.got + bs), [])
    decreases |bs|
  {
    NextSound(r, Byte(bs[0]), crc32);
    var (r1, o1) := Next(r, Byte(bs[0]), crc32);
    if |bs| == 1 {
      assert bs[1..] == [] && r.got + bs == r.got + [bs[0]];
    } else {
      FeedData(r1, bs[1..], crc32);
      assert r.got + [bs[0]] + bs[1..] == r.got + bs;
    }
  }

  // Waiting for the start of a frame.
  predicate Ready(r: Rx) {
    r.phase == Idle || r.phase == Hand(0)
  }

  // A frame with the framing bytes of the next block: accepted and answered by ACK when
  // the check bytes fit, refused and answered by NAK when they do not.
  lemma FeedFrame(r: Rx, x: seq<octet>, crc32: seq<octet> -> nat)
    requires Sound(r) && Ready(r) && |x| == FRAME_TAIL
    ensures var n := Low8(r.blk + 1);
            var o := Feed(r, [SOH, n, !n] + x, crc32);
            if Crc16(x[..BLOCK]) == CrcOf(x[BLOCK], x[BLOCK + 1]) then
                o == (Accept(Rx(Idle, r.blk, x[..BLOCK], r.hdr, r.dst)), [ACK])
            else o == (Rx(Idle, r.blk, x[..BLOCK], r.hdr, r.dst), [NAK])
  {
    hide Crc16, Low8, CrcOf, Accept, Feed, Next;
    var n := Low8(r.blk + 1);
    var d, c := x[..BLOCK], x[BLOCK..];
    assert [SOH, n, !n] + x == ([SOH, n, !n] + d) + c;
    FeedHeadData(r, d, crc32);
    FeedJoin(r, [SOH, n, !n] + d, c, crc32);
    FeedCheck(r.(phase := Hi, got := d), c, crc32);
    NoReply();
  }

  lemma FeedHeadData(r: Rx, d: seq<octet>, crc32: seq<octet> -> nat)
    requires Sound(r) && Ready(r) && |d| == BLOCK
    ensures var n := Low8(r.blk + 1); Feed(r, [SOH, n, !n] + d, crc32) == (r.(phase := Hi, got := d), [])
  {
    hide Low8, Feed, Next;
    var n := Low8(r.blk + 1);
    FeedHead(r, crc32);
    FeedJoin(r, [SOH, n, !n], d, crc32);
    FeedData(r.(phase := Data, got := []), d, crc32);
    assert [] + d == d;
  }

  lemma NoReply()
    ensures [] + [] + [ACK] == [ACK] && [] + [] + [NAK] == [NAK] && [] + [ACK] == [ACK] && [] + [NAK] == [NAK]
  {
  }

  lemma FeedOne(r: Rx, b: octet, crc32: seq<octet> -> nat)
    requires Sound(r)
    ensures Sound(Next(r, Byte(b), crc32).0) && Feed(r, [b], crc32) == Next(r, Byte(b), crc32)
  {
    hide Next;
    NextSound(r, Byte(b), crc32);
    assert [b][1..] == [];
    var (r1, o1) := Next(r, Byte(b), crc32);
    assert o1 + [] == o1;
  }

  lemma FeedTwo(r: Rx, a: octet, b: octet, crc32: seq<octet> -> nat)
    requires Sound(r)
    ensures Sound(Next(r, Byte(a), crc32).0)
    ensures var x := Next(r, Byte(a), crc32); var y := Next(x.0, Byte(b), crc32);
            Feed(r, [a, b], crc32) == (y.0, x.1 + y.1)
  {
    hide Next, Feed;
    FeedOne(r, a, crc32);
    FeedOne(Next(r, Byte(a), crc32).0, b, crc32);
    FeedJoin(r, [a], [b], crc32);
    assert [a] + [b] == [a, b];
  }

  // The steps of the three framing bytes.
  lemma HeadSteps(r: Rx, n: octet, crc32: seq<octet> -> nat)
    requires Sound(r) && Ready(r) && n == Low8(r.blk + 1)
    ensures Next(r, Byte(SOH), crc32) == (r.(phase := Num1), [])
    ensures Next(r.(phase := Num1), Byte(n), crc32) == (r.(phase := Num2(n)), [])
    ensures Next(r.(phase := Num2(n)), Byte(!n), crc32) == (r.(phase := Data, got := []), [])
  {
    hide Low8, Verdict, Crc16, CrcOf, Accept;
  }

  lemma FeedHead(r: Rx, crc32: seq<octet> -> nat)
    requires Sound(r) && Ready(r)
    ensures var n := Low8(r.blk + 1); Feed(r, [SOH, n, !n], crc32) == (r.(phase := Data, got := []), [])
  {
    hide Low8, Feed, Next;
    var n := Low8(r.blk + 1);
    HeadSteps(r, n, crc32);
    FeedTwo(r, SOH, n, crc32);
    FeedOne(r.(phase := Num2(n)), !n, crc32);
    FeedJoin(r, [SOH, n], [!n], crc32);
    assert [SOH, n] + [!n] == [SOH, n, !n];
  }

  lemma FeedCheck(r: Rx, c: seq<octet>, crc32: seq<octet> -> nat)
    requires Sound(r) && r.phase == Hi && |c| == 2
    ensures Feed(r, c, crc32)
            == if Crc16(r.got) == CrcOf(c[0], c[1]) then (Accept(Rx(Idle, r.blk, r.got, r.hdr, r.dst)), [ACK])
                 else (r.(phase := Idle), [NAK])
  {
    hide Crc16, CrcOf, Accept, Feed;
    assert c == [c[0], c[1]];
    FeedTwo(r, c[0], c[1], crc32);
    NoReply();
    SamePhase(r.blk, r.got, r.hdr, r.dst, Lo(c[0]));
  }

  // ---- The line ----

  // What the line does to the copies of one block before it lets one through: each is
  // given other data or check bytes, so that they do not fit together.
  predicate Damaged(copies: seq<seq<octet>>) {
    forall i :: 0 <= i < |copies| ==> Bad(copies[i])
  }

  predicate AllDamaged(plan: seq<seq<seq<octet>>>) {
    forall i :: 0 <= i < |plan| ==> Damaged(plan[i])
  }

  // The copies damaged of block i: of the one being sent, then by the plan, then none.
  ghost function CopiesAt(copies: seq<seq<octet>>, plan: seq<seq<seq<octet>>>, i: nat): seq<seq<octet>> {
    if i == 0 then copies else if i <= |plan| then plan[i - 1] else []
  }

  // Each of the first n blocks gets through in ten tries.
  ghost predicate Passes(copies: seq<seq<octet>>, plan: seq<seq<seq<octet>>>, n: nat) {
    forall i: nat :: i < n ==> |CopiesAt(copies, plan, i)| <= 9
  }

  predicate Bad(x: seq<octet>) {
    |x| == FRAME_TAIL && Crc16(x[..BLOCK]) != CrcOf(x[BLOCK], x[BLOCK + 1])
  }

  class Line {
    var rx: Rx
    var replies: seq<octet>
    var log: seq<octet>
    var copies: seq<seq<octet>>
    var plan: seq<seq<seq<octet>>>
    const crc32: seq<octet> -> nat

    constructor (plan: seq<seq<seq<octet>>>, crc32: seq<octet> -> nat)
      ensures this.crc32 == crc32 && rx == START && replies == [CRC_C] && log == []
      ensures copies == (if plan == [] then [] else plan[0]) && this.plan == (if plan == [] then [] else plan[1..])
    {
      this.crc32 := crc32;
      rx, replies, log := START, [CRC_C], [];
      copies, this.plan := if plan == [] then [] else plan[0], if plan == [] then [] else plan[1..];
    }

    // The receiver is where what was delivered has brought it.
    ghost predicate Logged()
      reads `rx, `log
    {
      Sound(rx) && Feed(START, log, crc32).0 == rx
    }

    // Bytes on their way to the receiver, whose answers come back.
    method Deliver(bs: seq<octet>)
      requires Logged()
      modifies `rx, `replies, `log
      ensures Logged() && (rx, replies) == (Feed(old(rx), bs, crc32).0, old(replies) + Feed(old(rx), bs, crc32).1)
      ensures log == old(log) + bs
    {
      var o := Feed(rx, bs, crc32);
      FeedJoin(START, log, bs, crc32);
      rx, replies, log := o.0, replies + o.1, log + bs;
    }

    // A frame written by the sender, damaged if the line is to damage it.
    method Write(frame: seq<octet>)
      requires Logged() && |frame| == 3 + FRAME_TAIL
      modifies this
      ensures Logged()
      ensures var f := if old(copies) == [] then frame else frame[..3] + old(copies)[0];
              (rx, replies) == (Feed(old(rx), f, crc32).0, old(replies) + Feed(old(rx), f, crc32).1)
                  && log == old(log) + f
      ensures old(copies) != [] ==> copies == old(copies)[1..] && plan == old(plan)
      ensures old(copies) == []
              ==> copies == (if old(plan) == [] then [] else old(plan)[0])
                  && plan == (if old(plan) == [] then [] else old(plan)[1..])
    {
      if copies == [] {
        Deliver(frame);
        copies, plan := if plan == [] then [] else plan[0], if plan == [] then [] else plan[1..];
      } else {
        Deliver(frame[..3] + copies[0]);
        copies := copies[1..];
      }
    }

    // The next answer the sender reads.
    method Read() returns (c: octet)
      requires replies != []
      modifies `replies
      ensures c == old(replies)[0] && replies == old(replies)[1..]
    {
      c, replies := replies[0], replies[1..];
    }
  }

  // ---- The sender ----

  const TIMED_OUT := -4

  // The bytes an answer is made of; others are skipped.
  predicate Answer(c: octet) {
    c in {0x06, 0x15, 0x43, 0x18}
  }

  function Class(c: octet): int {
    if c == 0x06 then 0 else if c == 0x18 then -2 else 1
  }

  // The first answer among the bytes that come in.
  ghost predicate FirstAnswer(q: seq<octet>, k: nat) {
    k < |q| && Answer(q[k]) && forall i :: 0 <= i < k ==> !Answer(q[i])
  }

  // wait_ack: what comes before the first answer is skipped, ACK counts as 0, NAK and 'C'
  // as 1, CAN as -2; when none comes in time, all is skipped and the result is -4.
  method WaitAck(line: Line) returns (r: int)
    modifies line`replies
    ensures r == TIMED_OUT <==> forall i :: 0 <= i < |old(line.replies)| ==> !Answer(old(line.replies)[i])
    ensures r == TIMED_OUT ==> line.replies == []
    ensures forall k: nat :: FirstAnswer(old(line.replies), k) ==>
              line.replies == old(line.replies)[k + 1..] && r == Class(old(line.replies)[k])
    ensures old(line.replies) == [ACK] ==> r == 0 && line.replies == []
    ensures old(line.replies) == [NAK] ==> r == 1 && line.replies == []
  {
    ghost var q, n := line.replies, 0;
    while line.replies != []
      invariant n <= |q| && line.replies == q[n..] && (n == 0 || !Answer(q[0]))
      invariant forall i :: 0 <= i < n ==> !Answer(q[i])
      decreases |line.replies|
    {
      assert line.replies[0] == q[n];
      assert forall k: nat :: FirstAnswer(q, k) && Answer(q[n]) ==> k == n;
      var c := line.Read();
      if c == ACK {
        return 0;
      }
      if c == NAK || c == CRC_C {
        return 1;
      }
      if c == CAN {
        return -2;
      }
      n := n + 1;
    }
    return TIMED_OUT;
  }

  // The data bytes of a block: short ones are filled up with 0x1A.
  function Padded(payload: seq<octet>): (r: seq<octet>)
    ensures |payload| <= BLOCK ==> |r| == BLOCK
    ensures payload <= r
  {
    if |payload| >= BLOCK then payload else payload + seq(BLOCK - |payload|, _ => 0x1A)
  }

  function Frame(n: octet, payload: seq<octet>): seq<octet> {
    [SOH, n, !n] + Padded(payload) + [CrcHi(Crc16(Padded(payload))), CrcLo(Crc16(Padded(payload)))]
  }

  // send_soh_packet, for 128-byte blocks with something in them.
  method SendSoh(line: Line, n: octet, payload: seq<octet>)
    requires line.Logged() && 0 < |payload| <= BLOCK
    modifies line
    ensures line.Logged()
    ensures var f := if old(line.copies) == [] then Frame(n, payload) else [SOH, n, !n] + old(line.copies)[0];
            (line.rx, line.replies)
                == (Feed(old(line.rx), f, line.crc32).0, old(line.replies) + Feed(old(line.rx), f, line.crc32).1)
            && line.log == old(line.log) + f
    ensures old(line.copies) != [] ==> line.copies == old(line.copies)[1..] && line.plan == old(line.plan)
    ensures old(line.copies) == [] ==> line.copies == (if old(line.plan) == [] then [] else old(line.plan)[0])
                                       && line.plan == (if old(line.plan) == [] then [] else old(line.plan)[1..])
  {
    hide Feed, Crc16, CrcHi, CrcLo;
    var hdr := [SOH, n, !n];
    var pad: seq<octet> := payload;
    while |pad| < BLOCK
      invariant |payload| <= |pad| <= BLOCK && pad == payload + seq(|pad| - |payload|, _ => 0x1A)
    {
      pad := pad + [0x1A];
    }
    assert pad == Padded(payload);
    var crc := ComputeCrc16(pad);
    var frame := hdr + pad + [CrcHi(crc), CrcLo(crc)];
    assert frame[..3] == hdr;
    line.Write(frame);
  }

  // ---- Blocks ----

  function BlockEnd(data: seq<octet>, k: nat): nat {
    if BLOCK * (k + 1) < |data| then BLOCK * (k + 1) else |data|
  }

  function Payload(data: seq<octet>, k: nat): (r: seq<octet>)
    requires BLOCK * k < |data|
    ensures 0 < |r| <= BLOCK && BLOCK * k + |r| == BlockEnd(data, k)
  {
    data[BLOCK * k..BlockEnd(data, k)]
  }

  // The first k blocks as they arrive.
  function Arrived(data: seq<octet>, k: nat): (r: seq<octet>)
    requires BLOCK * k < |data| + BLOCK
    ensures |r| == BLOCK * k
  {
    if k == 0 then [] else Arrived(data, k - 1) + Padded(Payload(data, k - 1))
  }

  lemma {:induction false} ArrivedData(data: seq<octet>, k: nat)
    requires BLOCK * k < |data| + BLOCK
    ensures var m := if BLOCK * k < |data| then BLOCK * k else |data|; Arrived(data, k)[..m] == data[..m]
    decreases k
  {
    hide Padded;
    if k > 0 {
      ArrivedData(data, k - 1);
      var p := Payload(data, k - 1);
      var b := Padded(p);
      Extended(data, Arrived(data, k - 1), BLOCK * (k - 1), p, b);
    }
  }

  lemma Extended(data: seq<octet>, a: seq<octet>, n: nat, p: seq<octet>, b: seq<octet>)
    requires n + |p| <= |data| && |a| == n && a[..n] == data[..n] && p == data[n..n + |p|] && p <= b
    ensures (a + b)[..n + |p|] == data[..n + |p|]
  {
    assert data[..n + |p|] == data[..n] + p;
    assert (a + b)[..n + |p|] == a + b[..|p|];
  }

  // The receiver has taken the first k blocks and waits.
  ghost predicate Took(r: Rx, data: seq<octet>, k: nat) {
    && BLOCK * k < |data| + BLOCK && Sound(r) && Ready(r) && r.blk == k
    && (k > 0 ==> r.phase == Idle && |data| >= HEADER && r.hdr == data[..HEADER] && r.dst == Arrived(data, k)[HEADER..])
  }

  // A blob of the header and as much data as it says, with the right CRC-32.
  predicate Consistent(data: seq<octet>, crc32: seq<octet> -> nat) {
    ValidHeader(data) && |data| == HEADER + Le32(data, 8) && crc32(data[HEADER..]) == Le32(data, 12)
  }

  // One more block accepted.
  lemma TookMore(r: Rx, data: seq<octet>, k: nat)
    requires Took(r, data, k) && BLOCK * k < |data| && ValidHeader(data)
    ensures Took(Accept(Rx(Idle, r.blk, Padded(Payload(data, k)), r.hdr, r.dst)), data, k + 1)
  {
    hide Le32, Padded, Arrived, ValidHeader;
    var b := Padded(Payload(data, k));
    ArrivedStep(data, k);
    if k == 0 {
      FirstBlock(data, b);
    } else {
      assert (Arrived(data, k) + b)[HEADER..] == Arrived(data, k)[HEADER..] + b;
    }
  }

  lemma ArrivedStep(data: seq<octet>, k: nat)
    requires BLOCK * k < |data|
    ensures Arrived(data, k + 1) == Arrived(data, k) + Padded(Payload(data, k)) && Arrived(data, 0) == []
    ensures k == 0 ==> Arrived(data, 1) == Padded(Payload(data, 0))
  {
    hide Padded;
    if k == 0 { assert [] + Padded(Payload(data, 0)) == Padded(Payload(data, 0)); }
  }

  // The first block starts with the header.
  lemma FirstBlock(data: seq<octet>, b: seq<octet>)
    requires ValidHeader(data) && b == Padded(Payload(data, 0))
    ensures |data| >= HEADER && ValidHeader(b) && b[..HEADER] == data[..HEADER]
  {
    hide Le32;
    var p := Payload(data, 0);
    assert p <= b && p == data[..|p|] && |p| >= HEADER;
    assert b[..HEADER] == p[..HEADER] == data[..HEADER];
    HeaderFront(b);
    HeaderFront(data);
  }

  // Refusing a copy leaves everything as it was.
  lemma TookStill(r: Rx, data: seq<octet>, k: nat, got: seq<octet>)
    requires Took(r, data, k)
    ensures Took(Rx(Idle, r.blk, got, r.hdr, r.dst), data, k)
  {
  }

  // What lies at dst in the end begins with the body.
  lemma TookBody(r: Rx, data: seq<octet>, k: nat)
    requires Took(r, data, k) && k > 0 && HEADER < |data| <= BLOCK * k
    ensures |r.dst| >= |data| - HEADER && r.dst[..|data| - HEADER] == data[HEADER..]
  {
    hide Arrived;
    ArrivedData(data, k);
    var a := Arrived(data, k);
    assert a[..|data|] == data[..|data|] == data;
    assert r.dst[..|data| - HEADER] == a[HEADER..|data|] == a[..|data|][HEADER..];
  }

  lemma TookVerdict(r: Rx, data: seq<octet>, k: nat, crc32: seq<octet> -> nat)
    requires Took(r, data, k) && |data| <= BLOCK * k && Consistent(data, crc32)
    ensures Verdict(r, crc32) == 0 && k > 0
  {
    hide Arrived, Le32;
    HeaderWords(data);
    TookBody(r, data, k);
  }

  lemma TookLength(r: Rx, data: seq<octet>, k: nat)
    requires Took(r, data, k) && k > 0 && |data| <= BLOCK * k
    ensures |r.dst| == Written(Blocks(|data|))
  {
    hide Arrived;
    assert Blocks(|data|) == k;
  }

  // At the end the receiver is satisfied.
  lemma TookAll(r: Rx, data: seq<octet>, k: nat, crc32: seq<octet> -> nat)
    requires Took(r, data, k) && |data| <= BLOCK * k && Consistent(data, crc32)
    ensures Feed(r, [EOT], crc32) == (r.(phase := Finished(0)), [ACK])
    ensures |r.dst| >= |data| - HEADER && r.dst[..|data| - HEADER] == data[HEADER..] && r.hdr == data[..HEADER]
  {
    hide Arrived, Le32, Verdict, Feed;
    TookVerdict(r, data, k, crc32);
    TookBody(r, data, k);
    FeedOne(r, EOT, crc32);
  }

  lemma HeaderWords(data: seq<octet>)
    requires |data| >= HEADER
    ensures Le32(data[..HEADER], 8) == Le32(data, 8) && Le32(data[..HEADER], 12) == Le32(data, 12)
  {
  }

  // The tries of one block: the line damages some copies, then lets one through. Ten damaged
  // copies are too many, and the receiver then still waits for this block.
  method SendBlock(line: Line, n: octet, data: seq<octet>, off: nat, chunk: nat, ghost k: nat) returns (ok: bool)
    requires Took(line.rx, data, k) && off == BLOCK * k < |data| && off + chunk == BlockEnd(data, k) && n == Low8(k + 1)
    requires ValidHeader(data) && line.Logged() && line.replies == [] && Damaged(line.copies) && AllDamaged(line.plan)
    modifies line
    ensures ok <==> |old(line.copies)| <= 9
    ensures line.Logged() && line.replies == [] && Damaged(line.copies) && AllDamaged(line.plan)
    ensures Took(line.rx, data, if ok then k + 1 else k)
    ensures ok ==> line.copies == CopiesAt(old(line.copies), old(line.plan), 1)
                   && line.plan == (if old(line.plan) == [] then [] else old(line.plan)[1..])
  {
    hide Feed, Crc16, Low8, Took, ValidHeader, Accept, Padded, Frame, Bad, FirstAnswer, Answer, Class;
    var tries := 0;
    var acked := false;
    ghost var copies, plan := line.copies, line.plan;
    while tries < 10 && !acked
      invariant 0 <= tries <= 10 && tries <= |copies| && line.replies == [] && line.Logged()
      invariant !acked ==> Took(line.rx, data, k) && line.copies == copies[tries..] && line.plan == plan
      invariant acked ==> Took(line.rx, data, k + 1) && tries == |copies| <= 9
      invariant acked ==> line.copies == (if plan == [] then [] else plan[0])
      invariant acked ==> line.plan == if plan == [] then [] else plan[1..]
      decreases 10 - tries, !acked
    {
      ghost var r := line.rx;
      TryFrame(r, data, k, line.crc32);
      if line.copies != [] { TryBad(r, data, k, line.copies[0], line.crc32); }
      SendSoh(line, n, data[off..off + chunk]);
      var ack := WaitAck(line);
      if ack == 0 {
        acked := true;
      } else {
        tries := tries + 1;
      }
    }
    ok := acked;
  }

  lemma TryFrame(r: Rx, data: seq<octet>, k: nat, crc32: seq<octet> -> nat)
    requires Took(r, data, k) && BLOCK * k < |data| && ValidHeader(data)
    ensures var o := Feed(r, Frame(Low8(k + 1), Payload(data, k)), crc32); o.1 == [ACK] && Took(o.0, data, k + 1)
  {
    hide Feed, Crc16, Low8, ValidHeader, Accept, CrcHi, CrcLo, CrcOf, Took, Padded, Payload;
    TookReady(r, data, k);
    var b := Padded(Payload(data, k));
    var x := b + [CrcHi(Crc16(b)), CrcLo(Crc16(b))];
    var n := Low8(k + 1);
    assert [SOH, n, !n] + b + [CrcHi(Crc16(b)), CrcLo(Crc16(b))] == [SOH, n, !n] + x;
    assert x[..BLOCK] == b;
    CrcBytes(Crc16(b));
    FeedFrame(r, x, crc32);
    TookMore(r, data, k);
  }

  lemma TookReady(r: Rx, data: seq<octet>, k: nat)
    requires Took(r, data, k)
    ensures Sound(r) && Ready(r) && r.blk == k
  {
  }

  lemma TryBad(r: Rx, data: seq<octet>, k: nat, x: seq<octet>, crc32: seq<octet> -> nat)
    requires Took(r, data, k) && Bad(x)
    ensures var n := Low8(k + 1); var o := Feed(r, [SOH, n, !n] + x, crc32); o.1 == [NAK] && Took(o.0, data, k)
  {
    hide Feed, Crc16, Low8, Accept, CrcOf;
    FeedFrame(r, x, crc32);
    TookStill(r, data, k, x[..BLOCK]);
  }

  // xmodem_send over a line that damages copies of the blocks: it succeeds if and only if at
  // most nine copies of each block are damaged, and then so does the receiver, with the body at
  // dst; else it gives up at the first block of which there are more, for which the receiver
  // still waits with all blocks before it.
  method XmodemSend(line: Line, data: seq<octet>) returns (rc: int, ghost k: nat)
    requires line.rx == START && line.log == [] && line.replies == [CRC_C] && Consistent(data, line.crc32)
    requires Damaged(line.copies) && AllDamaged(line.plan)
    modifies line
    ensures line.Logged() && |data| >= HEADER && rc in {0, -1}
    ensures rc == 0 <==> Passes(old(line.copies), old(line.plan), Blocks(|data|))
    ensures rc == 0 ==> line.rx.phase == Finished(0) && line.rx.hdr == data[..HEADER]
    ensures rc == 0 ==> |line.rx.dst| >= |data| - HEADER && line.rx.dst[..|data| - HEADER] == data[HEADER..]
    ensures rc == 0 ==> |line.rx.dst| == Written(Blocks(|data|))
    ensures rc != 0 ==> Took(line.rx, data, k) && k < Blocks(|data|) && Passes(old(line.copies), old(line.plan), k)
                        && |CopiesAt(old(line.copies), old(line.plan), k)| > 9
  {
    hide Feed, Crc16, Low8, Took, ValidHeader, Damaged, Verdict, Consistent, CopiesAt;
    ConsistentHeader(data, line.crc32);
    Nothing(START, line.crc32);
    var c := line.Read();
    TookNone(data);
    var n: octet, off := 1, 0;
    k := 0;
    ghost var copies, plan := line.copies, line.plan;
    NowCopies(copies, plan);
    while off < |data|
      invariant off == (if BLOCK * k < |data| then BLOCK * k else |data|) && n == Low8(k + 1)
      invariant Took(line.rx, data, k) && line.Logged() && line.replies == []
      invariant Damaged(line.copies) && AllDamaged(line.plan) && Passes(copies, plan, k)
      invariant line.copies == CopiesAt(copies, plan, k) && line.plan == if k <= |plan| then plan[k..] else []
      decreases |data| - off
    {
      var chunk := |data| - off;
      if chunk > BLOCK {
        chunk := BLOCK;
      }
      NextCopies(copies, plan, k);
      BlockNumber(data, k);
      var ok := SendBlock(line, n, data, off, chunk, k);
      if !ok {
        return -1, k;
      }
      off := off + chunk;
      NextNumber(k + 1);
      n := n + 1;
      k := k + 1;
    }
    TookAll(line.rx, data, k, line.crc32);
    TookLength(line.rx, data, k);
    TookBlocks(line.rx, data, k);
    rc := SendEot(line, data);
  }

  lemma NowCopies(copies: seq<seq<octet>>, plan: seq<seq<seq<octet>>>)
    ensures CopiesAt(copies, plan, 0) == copies && plan[0..] == plan
  {
  }

  // The copies of the next block come from the plan.
  lemma NextCopies(copies: seq<seq<octet>>, plan: seq<seq<seq<octet>>>, k: nat)
    ensures var rest := if k <= |plan| then plan[k..] else [];
            && CopiesAt(CopiesAt(copies, plan, k), rest, 1) == CopiesAt(copies, plan, k + 1)
            && (if rest == [] then [] else rest[1..]) == if k + 1 <= |plan| then plan[k + 1..] else []
  {
  }

  lemma BlockNumber(data: seq<octet>, k: nat)
    ensures BLOCK * k < |data| <==> k < Blocks(|data|)
  {
  }

  lemma TookBlocks(r: Rx, data: seq<octet>, k: nat)
    requires Took(r, data, k) && |data| <= BLOCK * k
    ensures k == Blocks(|data|)
  {
    hide Arrived;
  }

  // The end of the transfer.
  method SendEot(line: Line, ghost data: seq<octet>) returns (rc: int)
    requires line.Logged() && line.replies == []
    requires Feed(line.rx, [EOT], line.crc32) == (line.rx.(phase := Finished(0)), [ACK])
    modifies line
    ensures rc == 0 && line.Logged() && line.rx == old(line.rx).(phase := Finished(0))
  {
    hide Feed;
    var tries := 0;
    var acked := false;
    while tries < 10 && !acked
      invariant line.Logged()
      invariant !acked ==> tries == 0 && line.replies == [] && line.rx == old(line.rx)
      invariant acked ==> line.rx == old(line.rx).(phase := Finished(0))
      decreases 10 - tries, !acked
    {
      line.Deliver([EOT]);
      var ack := WaitAck(line);
      if ack == 0 {
        acked := true;
      } else {
        tries := tries + 1;
      }
    }
    rc := if acked then 0 else -1;
  }

  lemma ConsistentHeader(data: seq<octet>, crc32: seq<octet> -> nat)
    requires Consistent(data, crc32)
    ensures ValidHeader(data) && |data| > HEADER
  {
  }

  lemma TookNone(data: seq<octet>)
    ensures Took(START, data, 0) && Low8(1) == 1
  {
    assert Low8(0) == 0;
  }

  lemma NextNumber(k: nat)
    ensures Low8(k + 1) == Low8(k) + 1
  {
  }

  // ---- Both ends ----

  // The whole transfer: the sender's bytes as the line passed them on, read by the
  // receiver's loop, end in success and the body.
  method Transfer(data: seq<octet>, plan: seq<seq<seq<octet>>>, crc32: seq<octet> -> nat, dst: array<octet>)
    returns (sent: int, received: int, size: nat)
    requires Consistent(data, crc32) && AllDamaged(plan) && forall i :: 0 <= i < |plan| ==> |plan[i]| <= 9
    requires Written(Blocks(|data|)) <= dst.Length
    modifies dst
    ensures sent == 0 && received == 0 && size == |data| - HEADER <= Written(Blocks(|data|))
    ensures dst[..size] == data[HEADER..] && dst[Written(Blocks(|data|))..] == old(dst[Written(Blocks(|data|))..])
  {
    hide Feed, Crc16, Low8, Took, ValidHeader, Damaged, Verdict, Consistent, After, Le32, Written, Blocks;
    ConsistentHeader(data, crc32);
    var line := new Line(plan, crc32);
    ghost var k;
    FewCopies(plan, Blocks(|data|));
    sent, k := XmodemSend(line, data);
    var events := Events(line.log);
    FeedAfter(START, line.log, crc32);
    var uart := new Uart(events, crc32);
    received, size := ReceiveLoader(uart, dst);
    Nothing(uart.rx, crc32);
    if uart.rx.phase.Finished? { StaysFinished(uart.rx, uart.pending, crc32); }
    HeaderWords(data);
    ConsistentSize(data, crc32);
    assert dst[..size] == dst[..|uart.rx.dst|][..size];
  }

  function Events(bs: seq<octet>): seq<Event> {
    seq(|bs|, i requires 0 <= i < |bs| => Byte(bs[i]))
  }

  lemma {:induction false} FeedAfter(r: Rx, bs: seq<octet>, crc32: seq<octet> -> nat)
    requires Sound(r)
    ensures After(r, Events(bs), crc32) == Feed(r, bs, crc32).0
    decreases |bs|
  {
    hide Next;
    if bs != [] {
      NextSound(r, Byte(bs[0]), crc32);
      assert Events(bs)[1..] == Events(bs[1..]);
      FeedAfter(Next(r, Byte(bs[0]), crc32).0, bs[1..], crc32);
    }
  }

  lemma ConsistentSize(data: seq<octet>, crc32: seq<octet> -> nat)
    requires Consistent(data, crc32)
    ensures |data| == HEADER + Le32(data, 8)
  {
  }

  // A line that damages at most nine copies of each block.
  lemma FewCopies(plan: seq<seq<seq<octet>>>, n: nat)
    requires AllDamaged(plan) && forall i :: 0 <= i < |plan| ==> |plan[i]| <= 9
    ensures var copies, rest := if plan == [] then [] else plan[0], if plan == [] then [] else plan[1..];
            Damaged(copies) && AllDamaged(rest) && Passes(copies, rest, n)
  {
  }
}
