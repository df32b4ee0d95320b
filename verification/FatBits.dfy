// The FAT as a string of bits: each entry has 12, 16 or 32 of them, one behind the other, the
// lowest first; of 32 the low 28 are the entry's.
module FatBits {
  import opened Arith
  import opened Bytes
  import opened FatVolume
  import opened FatEntries

  // Bit k of a number, bit 0 the lowest.
  ghost predicate IsSet(n: nat, k: nat) {
    if k == 0 then n % 2 == 1 else IsSet(n / 2, k - 1)
  }

  // Bit p of a string of octets.
  ghost predicate BitAt(o: seq<byte>, p: nat) {
    p / 8 < |o| && IsSet(o[p / 8], p % 8)
  }

  // Where bit j of an entry is.
  ghost function BitOf(t: FatType, clst: nat, j: nat): nat {
    match t case Fat12 => 12 * clst + j case Fat16 => 16 * clst + j case Fat32 => 32 * clst + j
  }

  // The bits of an entry that are its value.
  ghost function Used(t: FatType): nat {
    match t case Fat12 => 12 case Fat16 => 16 case Fat32 => 28
  }

  // ---- Bits of numbers ----

  // A number put together from w low bits and the rest.
  lemma {:induction false} Joined(lo: nat, hi: nat, w: nat, k: nat)
    requires lo < Twos(w)
    ensures IsSet(lo + Twos(w) * hi, k) == if k < w then IsSet(lo, k) else IsSet(hi, k - w)
  {
    if w > 0 {
      Halved(lo, Twos(w - 1) * hi);
      assert Twos(w) * hi == 2 * (Twos(w - 1) * hi);
      if k > 0 { Joined(lo / 2, hi, w - 1, k - 1); }
    }
  }

  lemma Halved(lo: nat, m: nat)
    ensures (lo + 2 * m) % 2 == lo % 2 && (lo + 2 * m) / 2 == lo / 2 + m
  {
  }

  lemma Joined4(lo: nat, hi: nat, k: nat)
    requires lo < 16
    ensures IsSet(lo + 16 * hi, k) == if k < 4 then IsSet(lo, k) else IsSet(hi, k - 4)
  {
    assert Twos(4) == 16;
    Joined(lo, hi, 4, k);
  }

  lemma Joined8(lo: nat, hi: nat, k: nat)
    requires lo < 0x100
    ensures IsSet(lo + 0x100 * hi, k) == if k < 8 then IsSet(lo, k) else IsSet(hi, k - 8)
  {
    assert Twos(4) == 16 && Twos(8) == 0x100;
    Joined(lo, hi, 8, k);
  }

  // The low four bits and the others; the low octet and the others.
  lemma Nibbles(n: nat, k: nat)
    ensures k < 4 ==> IsSet(n % 16, k) == IsSet(n, k)
    ensures IsSet(n / 16, k) == IsSet(n, k + 4)
  {
    hide IsSet;
    Fundamental(n, 16);
    Joined4(n % 16, n / 16, k);
    Joined4(n % 16, n / 16, k + 4);
  }

  lemma Octet(n: nat, k: nat)
    ensures k < 8 ==> IsSet(n % 0x100, k) == IsSet(n, k)
    ensures IsSet(n / 0x100, k) == IsSet(n, k + 8)
  {
    hide IsSet;
    Fundamental(n, 0x100);
    Joined8(n % 0x100, n / 0x100, k);
    Joined8(n % 0x100, n / 0x100, k + 8);
  }

  // ---- Reading ----

  // Bit j of the value of an entry is bit j of its span of the table.
  lemma EntryBits(t: FatType, o: seq<byte>, clst: nat, j: nat)
    requires Holds(t, o, clst) && j < Used(t)
    ensures IsSet(Entry(t, o, clst), j) <==> BitAt(o, BitOf(t, clst, j))
    ensures Entry(t, o, clst) < Twos(Used(t))
  {
    hide IsSet, Entry, Twos;
    Powers();
    match t
    case Fat12 => Bits12(o, clst, j);
    case Fat16 => Bits16(o, clst, j);
    case Fat32 => Bits32(o, clst, j);
  }

  lemma Powers()
    ensures Twos(12) == 0x1000 && Twos(16) == 0x1_0000 && Twos(28) == 0x1000_0000
  {
    assert Twos(4) == 16 && Twos(8) == 0x100 && Twos(12) == 0x1000 && Twos(16) == 0x1_0000;
    assert Twos(20) == 0x10_0000 && Twos(24) == 0x100_0000;
  }

  lemma Bits12(o: seq<byte>, clst: nat, j: nat)
    requires Holds(Fat12, o, clst) && j < 12
    ensures IsSet(Entry(Fat12, o, clst), j) <==> BitAt(o, 12 * clst + j)
    ensures Entry(Fat12, o, clst) < 0x1000
  {
    hide IsSet, LdWord;
    var k, p := clst + clst / 2, 12 * clst + j;
    LowTwelve(o[k], o[k + 1]);
    HighTwelve(o[k], o[k + 1]);
    if clst % 2 == 1 {
      assert p == 8 * k + (4 + j);
      Joined4(o[k] / 16, o[k + 1], j);
      Nibbles(o[k], j);
    } else {
      assert p == 8 * k + j;
      Joined8(o[k], o[k + 1] % 16, j);
      if j >= 8 { Nibbles(o[k + 1], j - 8); }
    }
  }

  lemma Bits16(o: seq<byte>, clst: nat, j: nat)
    requires Holds(Fat16, o, clst) && j < 16
    ensures IsSet(Entry(Fat16, o, clst), j) <==> BitAt(o, 16 * clst + j)
    ensures Entry(Fat16, o, clst) < 0x1_0000
  {
    hide IsSet;
    assert 16 * clst + j == 8 * (clst * 2) + j;
    Joined8(o[clst * 2], o[clst * 2 + 1], j);
  }

  lemma Bits32(o: seq<byte>, clst: nat, j: nat)
    requires Holds(Fat32, o, clst) && j < 28
    ensures IsSet(Entry(Fat32, o, clst), j) <==> BitAt(o, 32 * clst + j)
    ensures Entry(Fat32, o, clst) < 0x1000_0000
  {
    hide IsSet, BitAt, Entry, Value28;
    Entry32(o, clst);
    InOctet(clst, j);
    BitIn(o, 32 * clst + j, clst * 4 + j / 8, j % 8);
    OctetsAt(o, clst * 4, j, j / 8, j % 8);
  }

  lemma OctetsAt(o: seq<byte>, k: nat, j: nat, q: nat, i: nat)
    requires k + 4 <= |o| && j < 28 && q == j / 8 && i == j % 8
    ensures q < 4 && IsSet(Value28(o[k], o[k + 1], o[k + 2], o[k + 3]), j) == IsSet(o[k + q], i)
  {
    hide IsSet, Value28;
    FourOctets(o[k], o[k + 1], o[k + 2], o[k + 3], j);
  }

  lemma Entry32(o: seq<byte>, clst: nat)
    requires Holds(Fat32, o, clst)
    ensures var k := clst * 4;
            k + 4 <= |o| && Entry(Fat32, o, clst) == Value28(o[k], o[k + 1], o[k + 2], o[k + 3]) < 0x1000_0000
  {
    hide LdDword;
  }

  lemma InOctet(clst: nat, j: nat)
    requires j < 28
    ensures (32 * clst + j) / 8 == clst * 4 + j / 8 && (32 * clst + j) % 8 == j % 8 && j / 8 < 4
  {
  }

  lemma BitIn(o: seq<byte>, p: nat, k: nat, i: nat)
    requires p / 8 == k < |o| && p % 8 == i
    ensures BitAt(o, p) <==> IsSet(o[k], i)
  {
  }

  // Four octets but for the top four bits.
  ghost function Value28(b0: byte, b1: byte, b2: byte, b3: byte): nat {
    LdDword(b0, b1, b2, b3) % 0x1000_0000
  }

  lemma FourOctets(b0: byte, b1: byte, b2: byte, b3: byte, j: nat)
    requires j < 28
    ensures IsSet(Value28(b0, b1, b2, b3), j)
            == IsSet(if j < 8 then b0 else if j < 16 then b1 else if j < 24 then b2 else b3, j % 8)
  {
    hide IsSet, Value28;
    var n: nat := b3 % 16;
    var n2: nat := b2 + 0x100 * n;
    var n1: nat := b1 + 0x100 * n2;
    Low28(b0, b1, b2, b3);
    Joined8(b0, n1, j);
    if j >= 8 { Joined8(b1, n2, j - 8); }
    if j >= 16 { Joined8(b2, n, j - 16); }
    if j >= 24 { Nibbles(b3, j - 24); }
  }

  lemma Low28(b0: byte, b1: byte, b2: byte, b3: byte)
    ensures Value28(b0, b1, b2, b3) == b0 + 0x100 * (b1 + 0x100 * (b2 + 0x100 * (b3 % 16)))
  {
    Fundamental(b3, 16);
    Assemble(b0, b1, b2, b3 % 16, b3 / 16, b0 + 0x100 * b1 + 0x1_0000 * b2 + 0x100_0000 * (b3 % 16));
  }

  // ---- Storing ----

  // A store sets the bits of the value and leaves every other bit of the table.
  lemma PutBits(t: FatType, o: seq<byte>, clst: nat, val: nat, p: nat)
    requires Holds(t, o, clst) && p / 8 < |o|
    ensures BitAt(Put(t, o, clst, val), p) <==>
      if BitOf(t, clst, 0) <= p < BitOf(t, clst, Used(t)) then IsSet(val, p - BitOf(t, clst, 0)) else BitAt(o, p)
  {
    match t
    case Fat12 => Stored12(o, clst, val, p);
    case Fat16 => Stored16(o, clst, val, p);
    case Fat32 => Stored32(o, clst, val, p);
  }

  lemma Stored12(o: seq<byte>, clst: nat, val: nat, p: nat)
    requires Holds(Fat12, o, clst) && p / 8 < |o|
    ensures BitAt(Put(Fat12, o, clst, val), p) <==>
      if 12 * clst <= p < 12 * clst + 12 then IsSet(val, p - 12 * clst) else BitAt(o, p)
  {
    hide IsSet;
    var k, i := clst + clst / 2, p % 8;
    Fundamental(p, 8);
    if clst % 2 == 1 {
      assert 12 * clst == 8 * k + 4;
      Mixed(o[k] % 16, val % 16, i);
      Nibbles(o[k], i);
      if i >= 4 { Nibbles(val, i - 4); }
      Octet(val / 16, i);
      Nibbles(val, i);
    } else {
      assert 12 * clst == 8 * k;
      Octet(val, i);
      Mixed(val / 0x100 % 16, o[k + 1] / 16, i);
      Nibbles(val / 0x100, i);
      if i >= 4 { Nibbles(o[k + 1], i - 4); }
    }
  }

  // An octet of two halves.
  lemma Mixed(lo: nat, hi: nat, i: nat)
    requires lo < 16
    ensures IsSet(hi * 16 + lo, i) == if i < 4 then IsSet(lo, i) else IsSet(hi, i - 4)
  {
    Joined4(lo, hi, i);
  }

  lemma Stored16(o: seq<byte>, clst: nat, val: nat, p: nat)
    requires Holds(Fat16, o, clst) && p / 8 < |o|
    ensures BitAt(Put(Fat16, o, clst, val), p) <==>
      if 16 * clst <= p < 16 * clst + 16 then IsSet(val, p - 16 * clst) else BitAt(o, p)
  {
    hide IsSet;
    var i := p % 8;
    Fundamental(p, 8);
    Octet(val, i);
    Octet(val / 0x100, i);
  }

  lemma Stored32(o: seq<byte>, clst: nat, val: nat, p: nat)
    requires Holds(Fat32, o, clst) && p / 8 < |o|
    ensures BitAt(Put(Fat32, o, clst, val), p) <==>
      if 32 * clst <= p < 32 * clst + 28 then IsSet(val, p - 32 * clst) else BitAt(o, p)
  {
    hide IsSet;
    var i := p % 8;
    Fundamental(p, 8);
    Thirds(val, i);
    Mixed(val / 0x100_0000 % 16, o[clst * 4 + 3] / 16, i);
    if i >= 4 { Nibbles(o[clst * 4 + 3], i - 4); }
  }

  lemma Thirds(val: nat, i: nat)
    ensures i < 8 ==> IsSet(val % 0x100, i) == IsSet(val, i) && IsSet(val / 0x100 % 0x100, i) == IsSet(val, i + 8)
                      && IsSet(val / 0x1_0000 % 0x100, i) == IsSet(val, i + 16)
    ensures i < 4 ==> IsSet(val / 0x100_0000 % 16, i) == IsSet(val, i + 24)
  {
    hide IsSet;
    Octet(val, i);
    Octet(val, i + 8);
    Octet(val, i + 16);
    Octet(val / 0x100, i);
    Octet(val / 0x100, i + 8);
    Octet(val / 0x1_0000, i);
    Nibbles(val / 0x100_0000, i);
  }

  // ---- On the drive ----

  // The table begins at sector fatbase.
  lemma OctetOfFat(g: Geometry, disk: seq<Sector>, k: nat)
    requires ValidDisk(g, disk) && k < g.fsize * g.ss
    ensures 0 < g.ss && g.fatbase + k / g.ss < |disk| && |disk[g.fatbase + k / g.ss]| == g.ss
    ensures Octets(g, disk)[k] == disk[g.fatbase + k / g.ss][k % g.ss]
  {
    OctetInside(g, k, |disk|);
  }

  // Bit p of the first FAT on the drive.
  ghost predicate BitOnDrive(g: Geometry, disk: seq<Sector>, p: nat) {
    var k := p / 8;
    && 0 < g.ss && g.fatbase + k / g.ss < |disk| && k % g.ss < |disk[g.fatbase + k / g.ss]|
    && IsSet(disk[g.fatbase + k / g.ss][k % g.ss], p % 8)
  }

  // What get_fat returns, bit by bit.
  lemma FatBit(g: Geometry, disk: seq<Sector>, clst: nat, j: nat)
    requires ValidDisk(g, disk) && clst < g.nFatent && j < Used(g.fsType)
    ensures IsSet(Fat(g, disk)[clst], j) <==> BitOnDrive(g, disk, BitOf(g.fsType, clst, j))
  {
    hide Entry, IsSet, Geometry.Valid, Octets;
    FatAt(g, disk, clst);
    EntryBits(g.fsType, Octets(g, disk), clst, j);
    SpanInside(g, clst, j, |disk|);
    OctetOfFat(g, disk, (BitOf(g.fsType, clst, j)) / 8);
  }

  lemma SpanInside(g: Geometry, clst: nat, j: nat, sectors: nat)
    requires g.Valid(sectors) && clst < g.nFatent && j < Used(g.fsType)
    ensures (BitOf(g.fsType, clst, j)) / 8 < g.fsize * g.ss
  {
    EntryInside(g, clst, sectors);
    var p := BitOf(g.fsType, clst, j);
    match g.fsType {
      case Fat12 =>
        if clst % 2 == 1 { assert p == 8 * (clst + clst / 2) + (4 + j); }
        else { assert p == 8 * (clst + clst / 2) + j; }
      case Fat16 => assert p == 8 * (clst * 2) + j;
      case Fat32 => assert p == 8 * (clst * 4) + j;
    }
  }
}
