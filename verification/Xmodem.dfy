// The receiving end of the loader transfer (boot/main.c, xmodem_crc16 and
// xmodem_receive_loader), and the check sum both ends compute.
module Xmodem {
  type octet = bv8

  const SOH: octet := 0x01
  const EOT: octet := 0x04
  const ACK: octet := 0x06
  const NAK: octet := 0x15
  const CAN: octet := 0x18
  const CRC_C: octet := 0x43
  const BLOCK := 128
  const HEADER := 16
  const LOADER_MAGIC := 0x52444C32
  const LOADER_MAX := 0x10000

  // ---- CRC-16, polynomial 0x1021 ----

  function CrcBit(crc: bv16): bv16 {
    if crc & 0x8000 != 0 then (crc << 1) ^ 0x1021 else crc << 1
  }

  function CrcBits(crc: bv16, n: nat): bv16 {
    if n == 0 then crc else CrcBit(CrcBits(crc, n - 1))
  }

  // The next octet comes in at the top.
  function Mixed(crc: bv16, b: octet): bv16 {
    crc ^ ((b as bv16) << 8)
  }

  function Crc16(s: seq<octet>): bv16 {
    if s == [] then 0 else CrcBits(Mixed(Crc16(s[..|s| - 1]), s[|s| - 1]), 8)
  }

  // The loops of xmodem_crc16 and of crc16_ccitt.
  method ComputeCrc16(data: seq<octet>) returns (crc: bv16)
    ensures crc == Crc16(data)
  {
    hide CrcBit;
    crc := 0;
    var i := 0;
    while i < |data|
      invariant i <= |data| && crc == Crc16(data[..i])
    {
      assert data[..i + 1][..i] == data[..i];
      crc := crc ^ ((data[i] as bv16) << 8);
      ghost var start := crc;
      var b := 0;
      while b < 8
        invariant b <= 8 && crc == CrcBits(start, b)
      {
        crc := CrcBit(crc);
        b := b + 1;
      }
      i := i + 1;
    }
    assert data[..i] == data;
  }

  function CrcHi(crc: bv16): octet {
    (crc >> 8) as octet
  }

  function CrcLo(crc: bv16): octet {
    (crc & 0xFF) as octet
  }

  function CrcOf(hi: octet, lo: octet): bv16 {
    ((hi as bv16) << 8) | (lo as bv16)
  }

  lemma CrcBytes(crc: bv16)
    ensures CrcOf(CrcHi(crc), CrcLo(crc)) == crc
  {
  }

  // ---- The receiver as a machine fed byte by byte ----

  datatype Event = Byte(b: octet) | Timeout

  datatype Phase =
    | Hand(i: nat)                       // asking for the first frame
    | Idle | Num1 | Num2(bnum: octet)    // before and in the three framing bytes
    | Data | Hi | Lo(hi: octet)          // in the data and the check bytes
    | Finished(rc: int)

  // Blocks taken, the block being read, the first block's header, what lies at dst.
  datatype Rx = Rx(phase: Phase, blk: nat, got: seq<octet>, hdr: seq<octet>, dst: seq<octet>)

  const START := Rx(Hand(0), 0, [], [], [])

  // The low eight bits of a count.
  function Low8(n: nat): octet {
    if n == 0 then 0 else Low8(n - 1) + 1
  }

  function Le32(s: seq<octet>, at: nat): nat
    requires at + 4 <= |s|
  {
    s[at] as nat + 0x100 * s[at + 1] as nat + 0x1_0000 * s[at + 2] as nat + 0x100_0000 * s[at + 3] as nat
  }

  // magic, version, size, crc32.
  predicate ValidHeader(h: seq<octet>) {
    |h| >= HEADER && Le32(h, 0) == LOADER_MAGIC && 0 < Le32(h, 8) <= LOADER_MAX
  }

  // The checks after the last block. CRC-32 is a parameter.
  function Verdict(r: Rx, crc32: seq<octet> -> nat): int {
    if r.blk == 0 || |r.hdr| < HEADER then -1
    else if |r.dst| < Le32(r.hdr, 8) then -1
    else if crc32(r.dst[..Le32(r.hdr, 8)]) != Le32(r.hdr, 12) then -1
    else 0
  }

  // A block with the right check bytes.
  function Accept(r: Rx): Rx
    requires |r.got| == BLOCK
  {
    if r.blk == 0 then
      if !ValidHeader(r.got) then r.(phase := Finished(-1))
      else Rx(Idle, 1, [], r.got[..HEADER], r.got[HEADER..])
    else Rx(Idle, r.blk + 1, [], r.hdr, r.dst + r.got)
  }

  predicate Sound(r: Rx) {
    && (r.phase.Data? ==> |r.got| < BLOCK)
    && (r.phase.Hi? || r.phase.Lo? ==> |r.got| == BLOCK)
  }

  // One event: the new state and what is sent back, in the numbers of the protocol.
  function Next(r: Rx, e: Event, crc32: seq<octet> -> nat): (Rx, seq<octet>)
    requires Sound(r)
  {
    match r.phase
    case Hand(i) =>
      if e == Byte(0x01) then (r.(phase := Num1), [])
      else if i + 1 < 40 then (r.(phase := Hand(i + 1)), [0x43]) else (r.(phase := Finished(-1)), [])
    case Idle =>
      if e.Timeout? then (r, [0x15])
      else if e.b == 0x04 then (r.(phase := Finished(Verdict(r, crc32))), [0x06])
      else if e.b == 0x18 then (r.(phase := Finished(-1)), [])
      else if e.b == 0x01 then (r.(phase := Num1), []) else (r, [])
    case Num1 => if e.Timeout? then (r.(phase := Idle), [0x15]) else (r.(phase := Num2(e.b)), [])
    case Num2(bnum) =>
      if e.Timeout? || bnum != Low8(r.blk + 1) || e.b != !bnum then (r.(phase := Idle), [0x15])
      else (r.(phase := Data, got := []), [])
    case Data =>
      if e.Timeout? then (r.(phase := Idle), [0x15])
      else (r.(phase := if |r.got| + 1 == BLOCK then Hi else Data, got := r.got + [e.b]), [])
    case Hi => if e.Timeout? then (r.(phase := Idle), [0x15]) else (r.(phase := Lo(e.b)), [])
    case Lo(hi) =>
      if e.Timeout? || Crc16(r.got) != CrcOf(hi, e.b) then (r.(phase := Idle), [0x15])
      else (Accept(r), [0x06])
    case Finished(_) => (r, [])
  }

  // The state a run of events ends in.
  function After(r: Rx, es: seq<Event>, crc32: seq<octet> -> nat): Rx
    requires Sound(r)
    decreases |es|
  {
    if es == [] then r else
      NextSound(r, es[0], crc32);
      After(Next(r, es[0], crc32).0, es[1..], crc32)
  }

  lemma {:induction false} StaysFinished(r: Rx, es: seq<Event>, crc32: seq<octet> -> nat)
    requires Sound(r) && r.phase.Finished?
    ensures After(r, es, crc32) == r
    decreases |es|
  {
    if es != [] { StaysFinished(r, es[1..], crc32); }
  }

  // ---- How far dst is written ----

  // The bytes n blocks leave at dst: the first comes with the header.
  function Written(n: nat): nat {
    if n == 0 then 0 else BLOCK - HEADER + BLOCK * (n - 1)
  }

  predicate Counted(r: Rx) {
    |r.dst| == Written(r.blk)
  }

  lemma NextCounted(r: Rx, e: Event, crc32: seq<octet> -> nat)
    requires Sound(r) && Counted(r)
    ensures Counted(Next(r, e, crc32).0) && r.dst <= Next(r, e, crc32).0.dst
  {
    hide Crc16, Low8, CrcOf, Verdict, ValidHeader;
  }

  // In every state a stream leads to, dst holds what the blocks taken left there; what was
  // written stays.
  lemma {:induction false} AfterCounted(r: Rx, es: seq<Event>, crc32: seq<octet> -> nat)
    requires Sound(r) && Counted(r)
    ensures Counted(After(r, es, crc32)) && r.dst <= After(r, es, crc32).dst
    decreases |es|
  {
    hide Next, Counted;
    if es != [] {
      NextSound(r, es[0], crc32);
      NextCounted(r, es[0], crc32);
      AfterCounted(Next(r, es[0], crc32).0, es[1..], crc32);
    }
  }

  // The blocks a blob is sent in.
  function Blocks(n: nat): nat {
    (n + BLOCK - 1) / BLOCK
  }

  // A loader of the size the header may name stays inside its memory if and only if it
  // leaves sixteen bytes of it free.
  lemma LoaderInside(size: nat)
    requires 0 < size
    ensures Written(Blocks(HEADER + size)) <= LOADER_MAX <==> size <= LOADER_MAX - HEADER
  {
  }

  // One of 65521 bytes, which the header check lets pass, writes 112 behind it.
  lemma LoaderBehind()
    ensures 65521 <= LOADER_MAX && Written(Blocks(HEADER + 65521)) == LOADER_MAX + 112
  {
  }

  // memcpy.
  method Copy(mem: array<octet>, at: nat, b: seq<octet>)
    requires at + |b| <= mem.Length
    modifies mem
    ensures mem[..at + |b|] == old(mem[..at]) + b && mem[at + |b|..] == old(mem[at + |b|..])
  {
    forall i | 0 <= i < |b| { mem[at + i] := b[i]; }
  }

  // ---- xmodem_receive_loader ----

  // The line to the receiver: what is still to come on it, and what was sent back. The
  // ghost fields follow the machine along.
  class Uart {
    var pending: seq<Event>
    var sent: seq<octet>
    ghost var rx: Rx
    ghost var due: seq<octet>
    const crc32: seq<octet> -> nat

    ghost predicate Follows(phase: Phase)
      reads this
    {
      rx.phase == phase && Sound(rx) && sent == due
    }

    constructor (pending: seq<Event>, crc32: seq<octet> -> nat)
      ensures this.pending == pending && this.crc32 == crc32 && rx == START && due == [CRC_C] && sent == []
    {
      this.pending, this.crc32 := pending, crc32;
      sent := [];
      rx, due := START, [CRC_C];
    }

    // uart_getc, for an event there is.
    method Get() returns (e: Event)
      requires pending != [] && Sound(rx)
      modifies `pending, `rx, `due
      ensures e == old(pending)[0] && pending == old(pending)[1..]
      ensures rx == Next(old(rx), e, crc32).0 && due == old(due) + Next(old(rx), e, crc32).1 && Sound(rx)
      ensures After(rx, pending, crc32) == After(old(rx), old(pending), crc32)
    {
      e, pending := pending[0], pending[1..];
      NextSound(rx, e, crc32);
      var (r, out) := Next(rx, e, crc32);
      rx, due := r, due + out;
    }

    // uart_putc.
    method Put(b: octet)
      modifies `sent
      ensures sent == old(sent) + [b]
    {
      sent := sent + [b];
    }
  }

  lemma NextSound(r: Rx, e: Event, crc32: seq<octet> -> nat)
    requires Sound(r)
    ensures Sound(Next(r, e, crc32).0)
  {
    hide Crc16, Low8, Le32, CrcOf;
  }

  const WAITING := 1

  // A block taken, one refused, or the line gone silent in the model.
  datatype Taken = Block(buf: seq<octet>) | Refused | Silent

  // From behind SOH: block number, its complement, data and check bytes; answered by ACK
  // or NAK.
  method ReceiveBlock(uart: Uart, blk: nat) returns (t: Taken)
    requires uart.Follows(Num1) && uart.rx.blk == blk
    modifies uart
    ensures |uart.pending| <= |old(uart.pending)| && Sound(uart.rx)
    ensures After(uart.rx, uart.pending, uart.crc32) == After(old(uart.rx), old(uart.pending), uart.crc32)
    ensures t.Silent? ==> !uart.rx.phase.Finished?
    ensures t.Silent? ==> uart.pending == [] && uart.rx.blk == blk && uart.rx.dst == old(uart.rx.dst)
    ensures t.Refused?
            ==> uart.Follows(Idle) && uart.rx.blk == blk && uart.rx.hdr == old(uart.rx.hdr)
                && uart.rx.dst == old(uart.rx.dst)
    ensures t.Block? ==> |t.buf| == BLOCK && Sound(uart.rx) && uart.sent == uart.due
                         && uart.rx == Accept(Rx(Idle, blk, t.buf, old(uart.rx.hdr), old(uart.rx.dst)))
  {
    hide Low8, Accept, After;
    t := ReceiveNumbers(uart, blk);
    if !t.Block? { return; }
    t := ReceiveData(uart, blk);
    if !t.Block? { return; }
    t := CheckBytes(uart, blk, t.buf);
  }

  // Block number and complement; an empty block says they are right.
  method ReceiveNumbers(uart: Uart, blk: nat) returns (t: Taken)
    requires uart.Follows(Num1) && uart.rx.blk == blk
    modifies uart
    ensures |uart.pending| <= |old(uart.pending)| && Sound(uart.rx)
    ensures After(uart.rx, uart.pending, uart.crc32) == After(old(uart.rx), old(uart.pending), uart.crc32)
    ensures t.Silent? ==> !uart.rx.phase.Finished?
    ensures t.Silent? ==> uart.pending == [] && uart.rx.blk == blk && uart.rx.dst == old(uart.rx.dst)
    ensures t.Refused? ==> uart.Follows(Idle)
    ensures t.Block? ==> t.buf == [] && uart.Follows(Data) && uart.rx.got == []
    ensures !t.Silent? ==> uart.rx.blk == blk && uart.rx.hdr == old(uart.rx.hdr) && uart.rx.dst == old(uart.rx.dst)
  {
    hide Crc16, Low8, Le32, CrcOf, Accept, Next, After;
    ghost var r := uart.rx;
    if uart.pending == [] { return Silent; }
    var bnum := uart.Get();
    NumberStep(r, bnum, uart.crc32);
    if bnum.Timeout? {
      uart.Put(NAK);
      return Refused;
    }
    if uart.pending == [] { return Silent; }
    var bnum2 := uart.Get();
    ComplementStep(r, bnum.b, bnum2, uart.crc32);
    if bnum2.Timeout? || bnum.b != Low8(blk + 1) || bnum2.b != !bnum.b {
      uart.Put(NAK);
      return Refused;
    }
    return Block([]);
  }

  lemma NumberStep(r: Rx, e: Event, crc32: seq<octet> -> nat)
    requires r.phase == Num1
    ensures Next(r, e, crc32) == if e.Timeout? then (r.(phase := Idle), [NAK]) else (r.(phase := Num2(e.b)), [])
  {
  }

  lemma ComplementStep(r: Rx, bnum: octet, e: Event, crc32: seq<octet> -> nat)
    ensures Next(r.(phase := Num2(bnum)), e, crc32)
         == if e.Timeout? || bnum != Low8(r.blk + 1) || e.b != !bnum then (r.(phase := Idle), [NAK])
              else (r.(phase := Data, got := []), [])
  {
  }

  // The 128 data bytes.
  method ReceiveData(uart: Uart, blk: nat) returns (t: Taken)
    requires uart.Follows(Data) && uart.rx.blk == blk && uart.rx.got == []
    modifies uart
    ensures |uart.pending| <= |old(uart.pending)| && Sound(uart.rx)
    ensures After(uart.rx, uart.pending, uart.crc32) == After(old(uart.rx), old(uart.pending), uart.crc32)
    ensures t.Silent? ==> !uart.rx.phase.Finished?
    ensures t.Silent? ==> uart.pending == [] && uart.rx.blk == blk && uart.rx.dst == old(uart.rx.dst)
    ensures t.Refused?
            ==> uart.Follows(Idle) && uart.rx.blk == blk && uart.rx.hdr == old(uart.rx.hdr)
                && uart.rx.dst == old(uart.rx.dst)
    ensures t.Block?
            ==> |t.buf| == BLOCK && uart.rx == Rx(Hi, blk, t.buf, old(uart.rx.hdr), old(uart.rx.dst))
                && uart.sent == uart.due
  {
    hide After;
    var buf: seq<octet> := [];
    while |buf| < BLOCK
      invariant |buf| <= BLOCK
      invariant uart.rx == Rx(if |buf| == BLOCK then Hi else Data, blk, buf, old(uart.rx.hdr), old(uart.rx.dst))
      invariant uart.sent == uart.due && |uart.pending| <= |old(uart.pending)|
      invariant After(uart.rx, uart.pending, uart.crc32) == After(old(uart.rx), old(uart.pending), uart.crc32)
    {
      if uart.pending == [] { return Silent; }
      var c := uart.Get();
      if c.Timeout? {
        uart.Put(NAK);
        return Refused;
      }
      buf := buf + [c.b];
    }
    return Block(buf);
  }

  // The two check bytes, and the answer.
  method CheckBytes(uart: Uart, blk: nat, buf: seq<octet>) returns (t: Taken)
    requires |buf| == BLOCK && uart.rx.phase == Hi && uart.rx.blk == blk && uart.rx.got == buf && uart.sent == uart.due
    modifies uart
    ensures |uart.pending| <= |old(uart.pending)| && Sound(uart.rx)
    ensures After(uart.rx, uart.pending, uart.crc32) == After(old(uart.rx), old(uart.pending), uart.crc32)
    ensures t.Silent? ==> !uart.rx.phase.Finished?
    ensures t.Silent? ==> uart.pending == [] && uart.rx.blk == blk && uart.rx.dst == old(uart.rx.dst)
    ensures t.Refused?
            ==> uart.Follows(Idle) && uart.rx.blk == blk && uart.rx.hdr == old(uart.rx.hdr)
                && uart.rx.dst == old(uart.rx.dst)
    ensures t.Block? ==> t.buf == buf && Sound(uart.rx) && uart.sent == uart.due
                         && uart.rx == Accept(Rx(Idle, blk, buf, old(uart.rx.hdr), old(uart.rx.dst)))
  {
    hide Crc16, Low8, Le32, CrcOf, Accept, After;
    if uart.pending == [] { return Silent; }
    var hi := uart.Get();
    if hi.Timeout? {
      uart.Put(NAK);
      return Refused;
    }
    if uart.pending == [] { return Silent; }
    var lo := uart.Get();
    if lo.Timeout? {
      uart.Put(NAK);
      return Refused;
    }
    var crc := ComputeCrc16(buf);
    if crc != CrcOf(hi.b, lo.b) {
      uart.Put(NAK);
      return Refused;
    }
    uart.Put(ACK);
    SamePhase(blk, buf, old(uart.rx.hdr), old(uart.rx.dst), Lo(hi.b));
    return Block(buf);
  }

  lemma SamePhase(blk: nat, got: seq<octet>, hdr: seq<octet>, dst: seq<octet>, p: Phase)
    requires |got| == BLOCK
    ensures Accept(Rx(p, blk, got, hdr, dst)) == Accept(Rx(Idle, blk, got, hdr, dst))
    ensures Sound(Accept(Rx(p, blk, got, hdr, dst)))
  {
  }

  // The handshake: 'C' until the first SOH comes.
  method Handshake(uart: Uart) returns (haveSoh: bool, silent: bool)
    requires uart.rx == START && uart.due == [CRC_C] && uart.sent == []
    modifies uart
    ensures Sound(uart.rx) && Counted(uart.rx) && uart.rx.blk == 0 && uart.rx.hdr == [] && uart.rx.dst == []
    ensures After(uart.rx, uart.pending, uart.crc32) == After(START, old(uart.pending), uart.crc32)
    ensures silent ==> uart.pending == [] && !uart.rx.phase.Finished?
    ensures !silent ==> uart.Follows(if haveSoh then Num1 else Finished(-1))
  {
    hide Crc16, Low8, Le32, CrcOf, After;
    var i := 0;
    haveSoh, silent := false, false;
    while i < 40 && !haveSoh
      invariant i <= 40 && uart.due == (if i < 40 && !haveSoh then uart.sent + [CRC_C] else uart.sent)
      invariant uart.rx == (if haveSoh then START.(phase := Num1)
                else if i < 40 then START.(phase := Hand(i)) else START.(phase := Finished(-1)))
      invariant After(uart.rx, uart.pending, uart.crc32) == After(START, old(uart.pending), uart.crc32)
      decreases 40 - i, !haveSoh
    {
      uart.Put(CRC_C);
      if uart.pending == [] {
        silent := true;
        return;
      }
      var e := uart.Get();
      if e == Byte(SOH) {
        haveSoh := true;
      } else {
        i := i + 1;
      }
    }
  }

  // The first `n` bytes of memory are d, the rest as it was.
  predicate Holds(now: seq<octet>, was: seq<octet>, n: nat, d: seq<octet>) {
    n == |d| <= |now| == |was| && now[..n] == d && now[n..] == was[n..]
  }

  lemma HoldsMore(was: seq<octet>, mid: seq<octet>, now: seq<octet>, d: seq<octet>, b: seq<octet>)
    requires Holds(mid, was, |d|, d) && |now| == |mid| && |d| + |b| <= |mid|
    requires now[..|d| + |b|] == mid[..|d|] + b && now[|d| + |b|..] == mid[|d| + |b|..]
    ensures Holds(now, was, |d| + |b|, d + b)
  {
    assert mid[|d| + |b|..] == mid[|d|..][|b|..] && was[|d| + |b|..] == was[|d|..][|b|..];
  }

  // A block taken goes to dst, the first without the header in front.
  method StoreBlock(dst: array<octet>, buf: seq<octet>, blk: nat, body0: nat, hdr0: seq<octet>, ghost was: seq<octet>,
                    ghost d: seq<octet>)
    returns (ok: bool, hdr: seq<octet>, body_len: nat)
    requires |buf| == BLOCK && Holds(dst[..], was, body0, d) && body0 == Written(blk)
    requires blk > 0 || ValidHeader(buf) ==> Written(blk + 1) <= dst.Length
    modifies dst
    ensures ok <==> blk > 0 || ValidHeader(buf)
    ensures !ok ==> body_len == body0 && Holds(dst[..], was, body0, d)
    ensures ok ==> body_len == Written(blk + 1) && hdr == if blk == 0 then buf[..HEADER] else hdr0
    ensures ok ==> Holds(dst[..], was, body_len, if blk == 0 then buf[HEADER..] else d + buf)
  {
    hide ValidHeader;
    ok, hdr, body_len := true, hdr0, body0;
    if blk == 0 {
      hdr := buf[..HEADER];
      HeaderFront(buf);
      if !ValidHeader(hdr) {
        return false, hdr, body_len;
      }
      Copy(dst, 0, buf[HEADER..]);
      HoldsMore(was, old(dst[..]), dst[..], [], buf[HEADER..]);
      body_len := BLOCK - HEADER;
      assert [] + buf[HEADER..] == buf[HEADER..];
    } else {
      Copy(dst, body_len, buf);
      HoldsMore(was, old(dst[..]), dst[..], d, buf);
      body_len := body_len + BLOCK;
    }
  }

  // xmodem_receive_loader. Whatever comes in, success means a valid header and data at
  // dst that matches its CRC-32. The array is the memory from dst on, which the code does
  // not bound: exactly what the blocks taken leave there is written.
  method ReceiveLoader(uart: Uart, dst: array<octet>) returns (rc: int, size: nat)
    requires uart.rx == START && uart.due == [CRC_C] && uart.sent == []
    requires |After(START, uart.pending, uart.crc32).dst| <= dst.Length
    modifies uart, dst
    ensures |uart.rx.dst| == Written(uart.rx.blk) && Holds(dst[..], old(dst[..]), |uart.rx.dst|, uart.rx.dst)
    ensures rc == WAITING ==> uart.pending == [] && !uart.rx.phase.Finished?
    ensures Sound(uart.rx) && After(uart.rx, uart.pending, uart.crc32) == After(START, old(uart.pending), uart.crc32)
    ensures rc != WAITING ==> uart.Follows(Finished(rc)) && rc in {0, -1}
    ensures rc == 0 ==> ValidHeader(uart.rx.hdr) && size == Le32(uart.rx.hdr, 8) <= |uart.rx.dst|
                        && uart.crc32(dst[..size]) == Le32(uart.rx.hdr, 12)
  {
    hide Crc16, Low8, Le32, CrcOf, After, Written, Holds, Accept;
    rc, size := WAITING, 0;
    ghost var was := dst[..];
    NothingHeld(was);
    AfterCounted(START, uart.pending, uart.crc32);
    var haveSoh, silent := Handshake(uart);
    if silent { return; }
    if !haveSoh {
      return -1, size;
    }
    var hdr: seq<octet>, blk, body_len := [], 0, 0;
    while true
      invariant uart.Follows(if haveSoh then Num1 else Idle)
      invariant uart.rx.blk == blk && uart.rx.hdr == hdr && body_len == |uart.rx.dst| == Written(blk)
      invariant Holds(dst[..], was, body_len, uart.rx.dst) && (blk > 0 ==> ValidHeader(hdr))
      invariant After(uart.rx, uart.pending, uart.crc32) == After(START, old(uart.pending), uart.crc32)
      decreases |uart.pending|, haveSoh
    {
      if !haveSoh {
        if uart.pending == [] { return; }
        var e := uart.Get();
        if e.Timeout? {
          uart.Put(NAK);
          continue;
        }
        if e.b == EOT {
          uart.Put(ACK);
          break;
        }
        if e.b == CAN {
          return -1, size;
        }
        if e.b != SOH {
          continue;
        }
      }
      haveSoh := false;
      ghost var d := uart.rx.dst;
      var t := ReceiveBlock(uart, blk);
      if t.Silent? { return; }
      if t.Refused? {
        continue;
      }
      Accepted(blk, t.buf, hdr, d);
      AfterCounted(uart.rx, uart.pending, uart.crc32);
      var ok;
      ok, hdr, body_len := StoreBlock(dst, t.buf, blk, body_len, hdr, was, d);
      if !ok {
        return -1, size;
      }
      blk := blk + 1;
    }
    rc, size := Conclude(uart, dst, blk, hdr, body_len, was);
  }

  lemma NothingHeld(was: seq<octet>)
    ensures Holds(was, was, 0, []) && Written(0) == 0
  {
  }

  // What a block accepted comes to.
  lemma Accepted(blk: nat, buf: seq<octet>, hdr: seq<octet>, d: seq<octet>)
    requires |buf| == BLOCK && |d| == Written(blk)
    ensures var r := Accept(Rx(Idle, blk, buf, hdr, d));
            if blk > 0 || ValidHeader(buf) then
              && r.phase == Idle && r.blk == blk + 1 && r.hdr == (if blk == 0 then buf[..HEADER] else hdr)
              && r.dst == (if blk == 0 then buf[HEADER..] else d + buf) && Counted(r)
              && (blk == 0 ==> ValidHeader(r.hdr))
            else r.phase == Finished(-1) && r.blk == blk && r.dst == d && Counted(r)
  {
    hide Le32;
    HeaderFront(buf);
  }

  // The checks after the last block.
  method Conclude(uart: Uart, dst: array<octet>, blk: nat, hdr: seq<octet>, body_len: nat, ghost was: seq<octet>)
    returns (rc: int, size: nat)
    requires uart.rx.phase == Finished(Verdict(uart.rx, uart.crc32)) && uart.rx.blk == blk && uart.rx.hdr == hdr
    requires Holds(dst[..], was, body_len, uart.rx.dst) && (blk > 0 ==> ValidHeader(hdr))
    ensures rc in {0, -1} && uart.rx.phase == Finished(rc)
    ensures rc == 0 ==> ValidHeader(hdr) && size == Le32(hdr, 8) <= |uart.rx.dst|
                        && uart.crc32(dst[..size]) == Le32(hdr, 12)
  {
    hide Le32;
    size := 0;
    if blk == 0 {
      return -1, size;
    }
    size := Le32(hdr, 8);
    if body_len < size {
      return -1, size;
    }
    assert dst[..size] == dst[..][..body_len][..size] == uart.rx.dst[..size];
    if uart.crc32(dst[..size]) != Le32(hdr, 12) {
      return -1, size;
    }
    return 0, size;
  }

  // The header check looks at the first sixteen bytes only.
  lemma HeaderFront(buf: seq<octet>)
    requires |buf| >= HEADER
    ensures ValidHeader(buf) <==> ValidHeader(buf[..HEADER])
  {
  }
}
