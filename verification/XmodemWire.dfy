// The loader transfer in the bytes and bits on the line (boot/main.c, xmodem_receive_loader;
// tools/xfer/flash_upg.c, send_soh_packet).
module XmodemWire {
  import opened Xmodem
  import opened XmodemCrc
  import opened XmodemSend

  // A block number is the count of blocks in eight bits.
  lemma {:induction false} NumberWraps(n: nat)
    ensures Low8(n) as nat == n % 256
    decreases n
  {
    hide Low8;
    LowStep(n);
    if n > 0 {
      NumberWraps(n - 1);
      OneUp(Low8(n - 1));
      WrapStep(n, Low8(n - 1) as nat);
    }
  }

  lemma LowStep(n: nat)
    ensures Low8(n) == if n == 0 then 0 else Low8(n - 1) + 1
  {
  }

  lemma WrapStep(n: nat, low: nat)
    requires n > 0 && low == (n - 1) % 256
    ensures (low + 1) % 256 == n % 256
  {
  }

  lemma OneUp(b: octet)
    ensures (b + 1) as nat == (b as nat + 1) % 256
  {
  }

  lemma Complement(b: octet)
    ensures (!b) as nat == 255 - b as nat
  {
  }

  // A frame of 133 bytes with the number of a block.
  ghost predicate IsFrame(x: seq<octet>, k: nat) {
    |x| == 133 && x[0] == 0x01 && x[1] as nat == k % 256 && x[2] as nat == 255 - x[1] as nat
  }

  // The frame of the next block is answered by 0x06 and taken if and only if its data and
  // check bytes are a multiple of the generator; by 0x15 if not.
  lemma FrameAnswered(r: Rx, x: seq<octet>, crc32: seq<octet> -> nat)
    requires Sound(r) && Ready(r) && |x| == 133 && IsFrame(x, r.blk + 1)
    ensures var o := Feed(r, x, crc32);
            if Remainder(BitsOf(x[3..])) == Zeros(16) then
              o == (Accept(Rx(Idle, r.blk, x[3..131], r.hdr, r.dst)), [0x06])
            else o.1 == [0x15] && o.0.blk == r.blk && o.0.hdr == r.hdr && o.0.dst == r.dst
  {
    hide Feed, BitsOf, Remainder, Accept, Crc16, CrcOf, Low8, Sound, Ready, Zeros, IsFrame;
    FrameParts(x, r.blk + 1);
    FeedFrame(r, x[3..], crc32);
    FrameFits(x);
  }

  lemma FrameParts(x: seq<octet>, k: nat)
    requires IsFrame(x, k)
    ensures x == [SOH, Low8(k), !Low8(k)] + x[3..] && x[3..][..BLOCK] == x[3..131]
    ensures x[3..][BLOCK] == x[131] && x[3..][BLOCK + 1] == x[132]
  {
    NumberWraps(k);
    Complement(Low8(k));
    SameNumber(x[1], Low8(k));
    SameNumber(x[2], !Low8(k));
  }

  lemma FrameFits(x: seq<octet>)
    requires |x| == 133
    ensures Crc16(x[3..131]) == CrcOf(x[131], x[132]) <==> Remainder(BitsOf(x[3..])) == Zeros(16)
  {
    hide BitsOf, Remainder, Crc16, CrcOf, Zeros, Eight;
    TakenIff(x[3..131], x[131], x[132]);
    BitsSplit(x[3..131], x[131], x[132]);
    assert x[3..] == x[3..131] + [x[131], x[132]];
  }

  lemma SameNumber(a: octet, b: octet)
    requires a as nat == b as nat
    ensures a == b
  {
  }

  lemma BitsSplit(s: seq<octet>, hi: octet, lo: octet)
    ensures BitsOf(s + [hi, lo]) == BitsOf(s) + (Eight(hi) + Eight(lo))
  {
    hide Eight;
    var t := s + [hi, lo];
    assert t[..|t| - 1] == s + [hi] && (s + [hi])[..|s|] == s;
    assert BitsOf(t) == BitsOf(s + [hi]) + Eight(lo);
    assert BitsOf(s + [hi]) == BitsOf(s) + Eight(hi);
  }

  // The frame of a block: 0x01, its number and 255 less that, the data filled up to 128
  // bytes with 0x1A, and two bytes that make the whole a multiple of the generator.
  lemma FrameBytes(n: octet, payload: seq<octet>)
    requires |payload| <= 128
    ensures var f := Frame(n, payload);
            && |f| == 133 && f[0] == 0x01 && f[1] == n && f[2] as nat == 255 - n as nat
            && f[3..3 + |payload|] == payload && (forall i :: 3 + |payload| <= i < 131 ==> f[i] == 0x1A)
            && Remainder(BitsOf(f[3..])) == Zeros(16)
  {
    hide BitsOf, Remainder, Crc16, CrcOf, CrcHi, CrcLo;
    var f, d := Frame(n, payload), Padded(payload);
    Complement(n);
    CrcBytes(Crc16(d));
    TakenIff(d, CrcHi(Crc16(d)), CrcLo(Crc16(d)));
    BitsSplit(d, CrcHi(Crc16(d)), CrcLo(Crc16(d)));
    assert f[3..] == d + [CrcHi(Crc16(d)), CrcLo(Crc16(d))];
    assert f[3..3 + |payload|] == payload;
  }

  // The first sixteen bytes of a transfer: "2LDR", a version, the size of the loader from 1
  // to 65536 and its CRC-32, each lowest byte first.
  lemma HeaderBytes(h: seq<octet>)
    requires |h| >= 16
    ensures ValidHeader(h)
            <==> && h[0] as nat == 0x32 && h[1] as nat == 0x4C && h[2] as nat == 0x44 && h[3] as nat == 0x52
                                && 0 < Number(h[8..12]) <= 65536
    ensures Le32(h, 8) == Number(h[8..12]) && Le32(h, 12) == Number(h[12..16])
  {
    hide Number, Le32;
    NumberOf(h, 8);
    NumberOf(h, 12);
    MagicBytes(h);
  }

  lemma MagicBytes(h: seq<octet>)
    requires |h| >= 16
    ensures Le32(h, 0) == LOADER_MAGIC
            <==> h[0] as nat == 0x32 && h[1] as nat == 0x4C && h[2] as nat == 0x44 && h[3] as nat == 0x52
  {
    hide Le32;
    Le32Sum(h, 0);
    MagicDigits(h[0] as nat, h[1] as nat, h[2] as nat, h[3] as nat);
  }

  lemma Le32Sum(h: seq<octet>, at: nat)
    requires at + 4 <= |h|
    ensures Le32(h, at) == h[at] as nat + 0x100 * h[at + 1] as nat + 0x1_0000 * h[at + 2] as nat
                           + 0x100_0000 * h[at + 3] as nat
  {
  }

  // The number octets write, lowest first.
  ghost function Number(s: seq<octet>): nat {
    if s == [] then 0 else s[0] as nat + 256 * Number(s[1..])
  }

  lemma NumberOf(h: seq<octet>, at: nat)
    requires at + 4 <= |h|
    ensures Number(h[at..at + 4]) == Le32(h, at)
  {
    hide Number, Le32;
    var s := h[at..at + 4];
    var t, u, v := s[1..], s[2..], s[3..];
    assert s[1..] == t && t[1..] == u && u[1..] == v;
    FirstByte(s);
    FirstByte(t);
    FirstByte(u);
    FirstByte(v);
    NoBytes(v[1..]);
    Le32Sum(h, at);
    FourDigits(s[0] as nat, s[1] as nat, s[2] as nat, s[3] as nat);
  }

  lemma FourDigits(a: nat, b: nat, c: nat, d: nat)
    ensures a + 256 * (b + 256 * (c + 256 * (d + 256 * 0))) == a + 0x100 * b + 0x1_0000 * c + 0x100_0000 * d
  {
  }

  lemma FirstByte(s: seq<octet>)
    requires s != []
    ensures Number(s) == s[0] as nat + 256 * Number(s[1..])
  {
  }

  lemma NoBytes(s: seq<octet>)
    requires s == []
    ensures Number(s) == 0
  {
  }

  lemma MagicDigits(a: nat, b: nat, c: nat, d: nat)
    requires a < 256 && b < 256 && c < 256 && d < 256
    ensures a + 0x100 * b + 0x1_0000 * c + 0x100_0000 * d == 0x52444C32
            <==> a == 0x32 && b == 0x4C && c == 0x44 && d == 0x52
  {
  }
}
