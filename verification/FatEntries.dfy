// The three FAT entry encodings on top of the window (ff.c, get_fat and put_fat).
module FatEntries {
  import opened Arith
  import opened Bytes
  import opened FatVolume

  // ---- Entries in a string of octets ----

  // First octet of an entry.
  function Offset(t: FatType, clst: nat): nat {
    match t
    case Fat12 => clst + clst / 2
    case Fat16 => clst * 2
    case Fat32 => clst * 4
  }

  // Octets an entry touches.
  function Width(t: FatType): nat {
    if t == Fat32 then 4 else 2
  }

  // The string is long enough to hold entry clst.
  predicate Holds(t: FatType, o: seq<byte>, clst: nat) {
    Offset(t, clst) + Width(t) <= |o|
  }

  function Entry(t: FatType, o: seq<byte>, clst: nat): nat
    requires Holds(t, o, clst)
  {
    var k := Offset(t, clst);
    match t
    case Fat12 => if clst % 2 == 1 then LdWord(o[k], o[k + 1]) / 16 else LdWord(o[k], o[k + 1]) % 0x1000
    case Fat16 => LdWord(o[k], o[k + 1])
    case Fat32 => LdDword(o[k], o[k + 1], o[k + 2], o[k + 3]) % 0x1000_0000
  }

  // The value a stored value reads back as.
  function Stored(t: FatType, val: nat): nat {
    match t
    case Fat12 => val % 0x1000
    case Fat16 => val % 0x1_0000
    case Fat32 => val % 0x1000_0000
  }

  // The octets put_fat stores, in its order.
  function Put(t: FatType, o: seq<byte>, clst: nat, val: nat): (r: seq<byte>)
    requires Holds(t, o, clst)
    ensures |r| == |o|
  {
    var k := Offset(t, clst);
    match t
    case Fat12 =>
      if clst % 2 == 1 then o[k := o[k] % 16 + val % 16 * 16][k + 1 := val / 16 % 0x100]
      else o[k := val % 0x100][k + 1 := o[k + 1] / 16 * 16 + val / 0x100 % 16]
    case Fat16 => o[k := val % 0x100][k + 1 := val / 0x100 % 0x100]
    case Fat32 =>
      o[k := val % 0x100][k + 1 := val / 0x100 % 0x100][k + 2 := val / 0x1_0000 % 0x100]
       [k + 3 := o[k + 3] / 16 * 16 + val / 0x100_0000 % 16]
  }

  // A stored entry reads back, and no other entry changes: not even the one
  // that shares an octet with it in FAT12.
  lemma PutEntry(t: FatType, o: seq<byte>, clst: nat, val: nat, c: nat)
    requires Holds(t, o, clst) && Holds(t, o, c)
    ensures Entry(t, Put(t, o, clst, val), c) == if c == clst then Stored(t, val) else Entry(t, o, c)
  {
    match t
    case Fat12 => Put12(o, clst, val, c);
    case Fat16 => Put16(o, clst, val, c);
    case Fat32 => Put32(o, clst, val, c);
  }

  lemma Put16(o: seq<byte>, clst: nat, val: nat, c: nat)
    requires Holds(Fat16, o, clst) && Holds(Fat16, o, c)
    ensures Entry(Fat16, Put(Fat16, o, clst, val), c) == if c == clst then val % 0x1_0000 else Entry(Fat16, o, c)
  {
    WordParts(val);
  }

  // FAT32 also keeps the four reserved bits of the octets it overwrites.
  lemma Put32(o: seq<byte>, clst: nat, val: nat, c: nat)
    requires Holds(Fat32, o, clst) && Holds(Fat32, o, c)
    ensures Entry(Fat32, Put(Fat32, o, clst, val), c) == if c == clst then val % 0x1000_0000 else Entry(Fat32, o, c)
    ensures Put(Fat32, o, clst, val)[clst * 4 + 3] / 16 == o[clst * 4 + 3] / 16
  {
    if c == clst {
      DwordParts(val, o[clst * 4 + 3] / 16);
    }
  }

  lemma Put12(o: seq<byte>, clst: nat, val: nat, c: nat)
    requires Holds(Fat12, o, clst) && Holds(Fat12, o, c)
    ensures Entry(Fat12, Put(Fat12, o, clst, val), c) == if c == clst then val % 0x1000 else Entry(Fat12, o, c)
  {
    var r := Put(Fat12, o, clst, val);
    var k := clst + clst / 2;
    if clst % 2 == 1 {
      OddNibbles(o[k], val);
      if c == clst {
        HighTwelve(r[k], r[k + 1]);
      } else if c + 1 == clst {
        assert c + c / 2 + 1 == k;
        LowTwelve(o[k - 1], o[k]);
        LowTwelve(r[k - 1], r[k]);
      }
    } else {
      EvenNibbles(o[k + 1], val);
      if c == clst {
        LowTwelve(r[k], r[k + 1]);
      } else if c == clst + 1 {
        assert c + c / 2 == k + 1;
        HighTwelve(o[k + 1], o[k + 2]);
        HighTwelve(r[k + 1], r[k + 2]);
      }
    }
  }

  lemma LowTwelve(lo: byte, hi: byte)
    ensures LdWord(lo, hi) % 0x1000 == lo + 0x100 * (hi % 16)
  {
    assert LdWord(lo, hi) == (lo + 0x100 * (hi % 16)) + 0x1000 * (hi / 16);
  }

  lemma HighTwelve(lo: byte, hi: byte)
    ensures LdWord(lo, hi) / 16 == lo / 16 + 16 * hi
  {
  }

  lemma OddNibbles(b: byte, val: nat)
    ensures (b % 16 + val % 16 * 16) % 16 == b % 16
    ensures (b % 16 + val % 16 * 16) / 16 == val % 16
    ensures val % 16 + 16 * (val / 16 % 0x100) == val % 0x1000
  {
    DivModUnique(val % 16, 16, b % 16);
    Slice(val, 16, 0x100);
  }

  lemma EvenNibbles(b: byte, val: nat)
    ensures (b / 16 * 16 + val / 0x100 % 16) % 16 == val / 0x100 % 16
    ensures (b / 16 * 16 + val / 0x100 % 16) / 16 == b / 16
    ensures val % 0x100 + 0x100 * (val / 0x100 % 16) == val % 0x1000
  {
    DivModUnique(b / 16, 16, val / 0x100 % 16);
    Slice(val, 0x100, 16);
  }

  // The low part of a number and the next digit make a longer low part.
  lemma Slice(val: nat, low: nat, digit: nat)
    requires 0 < low && 0 < digit
    ensures 0 < low * digit
    ensures val % low + low * (val / low % digit) == val % (low * digit)
  {
    var q := val / low;
    Fundamental(val, low);
    Fundamental(q, digit);
    MulStep(q % digit, digit, low);
    var r := val % low + low * (q % digit);
    assert val == q / digit * (low * digit) + r by {
      assert (q / digit * digit + q % digit) * low == q / digit * (low * digit) + low * (q % digit);
    }
    assert 0 < low * digit by { MulStep(0, digit, low); }
    DivModUnique(q / digit, low * digit, r);
  }

  lemma WordParts(val: nat)
    ensures val % 0x100 + 0x100 * (val / 0x100 % 0x100) == val % 0x1_0000
  {
    Slice(val, 0x100, 0x100);
  }

  lemma DwordParts(val: nat, keep: nat)
    requires keep < 16
    ensures keep * 16 + val / 0x100_0000 % 16 < 0x100
    ensures LdDword(val % 0x100, val / 0x100 % 0x100, val / 0x1_0000 % 0x100,
                    keep * 16 + val / 0x100_0000 % 16) % 0x1000_0000
      == val % 0x1000_0000
    ensures (keep * 16 + val / 0x100_0000 % 16) / 16 == keep
  {
    hide LdDword;
    var n := val / 0x100_0000 % 16;
    DwordSum(val, n);
    Assemble(val % 0x100, val / 0x100 % 0x100, val / 0x1_0000 % 0x100, n, keep, val % 0x1000_0000);
  }

  // Four bits kept above 28 bits stored.
  lemma Assemble(b0: byte, b1: byte, b2: byte, n: nat, keep: nat, low: nat)
    requires n < 16 && keep < 16 && low < 0x1000_0000 && b0 + 0x100 * b1 + 0x1_0000 * b2 + 0x100_0000 * n == low
    ensures keep * 16 + n < 0x100 && LdDword(b0, b1, b2, keep * 16 + n) % 0x1000_0000 == low
    ensures (keep * 16 + n) / 16 == keep
  {
    assert LdDword(b0, b1, b2, keep * 16 + n) == keep * 0x1000_0000 + low;
    DivModUnique(keep, 0x1000_0000, low);
    DivModUnique(keep, 16, n);
  }

  // The low 28 bits from three octets and a nibble.
  lemma DwordSum(val: nat, n: nat)
    requires n == val / 0x100_0000 % 16
    ensures val % 0x100 + 0x100 * (val / 0x100 % 0x100) + 0x1_0000 * (val / 0x1_0000 % 0x100) + 0x100_0000 * n
            == val % 0x1000_0000
  {
    Slice(val, 0x100, 0x100);
    Slice(val, 0x1_0000, 0x100);
    Slice(val, 0x100_0000, 16);
  }

  // ---- The FAT of a drive ----

  lemma OctetInside(g: Geometry, k: nat, sectors: nat)
    requires g.Valid(sectors) && k < g.FatOctets()
    ensures g.InFat(g.fatbase + SectorOf(g.ss, k))
    ensures g.fatbase + SectorOf(g.ss, k) + g.FatSectors() - g.fsize < sectors
    ensures 0 <= OffsetIn(g.ss, k) < g.ss
    ensures k == SectorOf(g.ss, k) * g.ss + OffsetIn(g.ss, k)
  {
    DivBelow(k, g.fsize, g.ss);
    FatAreaBelow(g, sectors);
  }

  lemma FatAreaBelow(g: Geometry, sectors: nat)
    requires g.Valid(sectors)
    ensures g.fatbase + g.FatSectors() < sectors
  {
    MulStep(0, g.nFatent - 2, g.csize);
  }

  // The first FAT copy as a string of octets.
  ghost function Octets(g: Geometry, disk: seq<Sector>): (o: seq<byte>)
    requires ValidDisk(g, disk)
    ensures |o| == g.FatOctets()
  {
    seq(g.FatOctets(), k requires 0 <= k < g.FatOctets() =>
      (OctetInside(g, k, |disk|); disk[g.fatbase + SectorOf(g.ss, k)][OffsetIn(g.ss, k)]))
  }

  lemma EntryInside(g: Geometry, clst: nat, sectors: nat)
    requires g.Valid(sectors) && clst < g.nFatent
    ensures Offset(g.fsType, clst) + Width(g.fsType) <= g.FatOctets()
  {
  }

  // The whole table.
  ghost function Fat(g: Geometry, disk: seq<Sector>): (fat: seq<nat>)
    requires ValidDisk(g, disk)
    ensures |fat| == g.nFatent
  {
    var o := Octets(g, disk);
    seq(g.nFatent, c requires 0 <= c < g.nFatent => (EntryInside(g, c, |disk|); Entry(g.fsType, o, c)))
  }

  lemma FatAt(g: Geometry, disk: seq<Sector>, clst: nat)
    requires ValidDisk(g, disk) && clst < g.nFatent
    ensures Holds(g.fsType, Octets(g, disk), clst)
    ensures Fat(g, disk)[clst] == Entry(g.fsType, Octets(g, disk), clst)
  {
    EntryInside(g, clst, |disk|);
  }

  // All that a store into the FAT may change of a drive.
  ghost predicate FatStore(g: Geometry, before: seq<Sector>, after: seq<Sector>)
    requires ValidDisk(g, before)
  {
    && ValidDisk(g, after) && |after| == |before|
    && (forall s :: 0 <= s < |before| && !g.InFatArea(s) ==> after[s] == before[s])
    && (Mirrored(g, before) ==> Mirrored(g, after))
  }

  lemma FatStoreTwice(g: Geometry, before: seq<Sector>, between: seq<Sector>, after: seq<Sector>)
    requires ValidDisk(g, before) && FatStore(g, before, between) && FatStore(g, between, after)
    ensures FatStore(g, before, after)
  {
  }

  lemma FatOfPut(g: Geometry, before: seq<Sector>, after: seq<Sector>, clst: nat, val: nat)
    requires ValidDisk(g, before) && FatStore(g, before, after) && clst < g.nFatent
    requires Holds(g.fsType, Octets(g, before), clst)
    requires Octets(g, after) == Put(g.fsType, Octets(g, before), clst, val)
    ensures Fat(g, after) == Fat(g, before)[clst := Stored(g.fsType, val)]
  {
    forall c: nat | c < g.nFatent
      ensures Fat(g, after)[c] == Fat(g, before)[clst := Stored(g.fsType, val)][c]
    {
      FatAt(g, before, c);
      FatAt(g, after, c);
      PutEntry(g.fsType, Octets(g, before), clst, val, c);
    }
  }

  // Writing back a FAT sector leaves the rest of the drive alone and keeps the copies equal.
  lemma StoreKeeps(g: Geometry, disk: seq<Sector>, s: nat, data: Sector)
    requires ValidDisk(g, disk) && g.InFat(s) && s + g.FatSectors() - g.fsize < |disk| && |data| == g.ss
    ensures FatStore(g, disk, WriteBack(g, disk, s, data))
  {
    var r := WriteBack(g, disk, s, data);
    FatAreaBelow(g, |disk|);
    if g.nFats == 2 && Mirrored(g, disk) {
      forall t: nat | g.InFat(t)
        ensures r[t] == r[t + g.fsize]
      {
        assert disk[t] == disk[t + g.fsize];
      }
    }
  }

  // Writing back a sector with one octet changed changes that octet of the FAT.
  lemma StoreEffect(g: Geometry, disk: seq<Sector>, k: nat, v: byte)
    requires ValidDisk(g, disk) && k < g.FatOctets()
    requires g.InFat(g.fatbase + SectorOf(g.ss, k)) && g.fatbase + SectorOf(g.ss, k) + g.FatSectors() - g.fsize < |disk|
    ensures
      var s := g.fatbase + SectorOf(g.ss, k);
      var r := WriteBack(g, disk, s, disk[s][OffsetIn(g.ss, k) := v]);
      FatStore(g, disk, r) && Octets(g, r) == Octets(g, disk)[k := v]
  {
    var s := g.fatbase + SectorOf(g.ss, k);
    OctetInside(g, k, |disk|);
    var data: Sector := disk[s][OffsetIn(g.ss, k) := v];
    StoreKeeps(g, disk, s, data);
    var r := WriteBack(g, disk, s, data);
    forall j: nat | j < g.FatOctets()
      ensures Octets(g, r)[j] == Octets(g, disk)[k := v][j]
    {
      OctetInside(g, j, |disk|);
      StoreOne(g, disk, r, k, v, j);
    }
    assert Octets(g, r) == Octets(g, disk)[k := v];
  }

  lemma StoreOne(g: Geometry, disk: seq<Sector>, r: seq<Sector>, k: nat, v: byte, j: nat)
    requires ValidDisk(g, disk) && ValidDisk(g, r) && |r| == |disk|
    requires k < g.FatOctets() && j < g.FatOctets()
    requires g.InFat(g.fatbase + SectorOf(g.ss, k)) && g.InFat(g.fatbase + SectorOf(g.ss, j))
    requires g.fatbase + g.fsize < |disk|
    requires OffsetIn(g.ss, j) < g.ss && OffsetIn(g.ss, k) < g.ss
    requires k == SectorOf(g.ss, k) * g.ss + OffsetIn(g.ss, k) && j == SectorOf(g.ss, j) * g.ss + OffsetIn(g.ss, j)
    requires forall s :: g.fatbase <= s < g.fatbase + g.fsize ==>
      r[s] == if s == g.fatbase + SectorOf(g.ss, k) then disk[s][OffsetIn(g.ss, k) := v] else disk[s]
    ensures Octets(g, r)[j] == if j == k then v else Octets(g, disk)[j]
  {
    hide Geometry.Valid, Geometry.FatOctets, SectorOf, OffsetIn;
    var s := g.fatbase + SectorOf(g.ss, j);
    assert Octets(g, r)[j] == r[s][OffsetIn(g.ss, j)];
    assert Octets(g, disk)[j] == disk[s][OffsetIn(g.ss, j)];
  }

  lemma Sane(fs: FatFs)
    requires fs.Valid()
    ensures fs.g.Valid(|fs.disk|) && 0 < fs.g.ss <= fs.win.Length
  {
  }

  // Storing an octet of the window that holds octet k of the FAT.
  method StoreByte(fs: FatFs, k: nat, off: nat, v: byte)
    requires fs.Valid() && k < fs.g.FatOctets()
    requires fs.winsect == fs.g.fatbase + SectorOf(fs.g.ss, k) && off == OffsetIn(fs.g.ss, k)
    modifies fs`wflag, fs.win
    ensures fs.Valid()
    ensures FatStore(fs.g, old(fs.Synced()), fs.Synced())
    ensures Octets(fs.g, fs.Synced()) == old(Octets(fs.g, fs.Synced()))[k := v]
    ensures fs.win[..fs.g.ss] == old(fs.win[..fs.g.ss])[off := v]
  {
    hide Geometry.Valid, Geometry.FatOctets, Octets, SectorOf, OffsetIn, FatFs.Valid, FatFs.Synced, FatStore, ValidDisk;
    Sane(fs);
    OctetInside(fs.g, k, |fs.disk|);
    ghost var before := fs.Synced();
    SetByte(fs, off, v);
    StoreEffect(fs.g, before, k, v);
  }

  // One assignment through a pointer into the window, and the dirty mark.
  method SetByte(fs: FatFs, off: nat, v: byte)
    requires fs.Valid() && fs.winsect < |fs.disk| && off < fs.g.ss
    modifies fs`wflag, fs.win
    ensures fs.Valid() && fs.wflag
    ensures fs.win[..fs.g.ss] == old(fs.win[..fs.g.ss])[off := v]
    ensures fs.Synced() == WriteBack(fs.g, old(fs.Synced()), fs.winsect, old(fs.Synced())[fs.winsect][off := v])
  {
    ghost var sector: Sector := fs.Synced()[fs.winsect];
    assert sector == fs.win[..fs.g.ss];
    fs.win[off] := v;
    fs.wflag := true;
    assert fs.win[..fs.g.ss] == sector[off := v];
  }

  // Moving the window to a FAT sector, whose octets it then shows.
  method MoveToFat(fs: FatFs, q: nat, ghost k: nat)
    requires fs.Valid() && k < fs.g.FatOctets() && q == SectorOf(fs.g.ss, k)
    modifies fs`disk, fs`wflag, fs`winsect, fs.win
    ensures fs.Valid() && fs.Synced() == old(fs.Synced())
    ensures fs.winsect == fs.g.fatbase + q < |fs.disk| && fs.g.InFat(fs.winsect)
    ensures 0 <= OffsetIn(fs.g.ss, k) < fs.g.ss <= fs.win.Length
    ensures fs.win[OffsetIn(fs.g.ss, k)] == Octets(fs.g, fs.Synced())[k]
    ensures fs.win[..fs.g.ss] == fs.Synced()[fs.winsect]
  {
    OctetInside(fs.g, k, |fs.disk|);
    hide Geometry.Valid, Geometry.FatOctets, SectorOf, OffsetIn;
    MoveWindow(fs, fs.g.fatbase + q);
    assert fs.win[OffsetIn(fs.g.ss, k)] == fs.win[..fs.g.ss][OffsetIn(fs.g.ss, k)];
  }

  // The sector the 16 and 32 bit forms compute holds all octets of the entry.
  lemma Aligned16(g: Geometry, clst: nat, sectors: nat)
    requires g.Valid(sectors)
    ensures 0 < g.ss / 2
    ensures SectorOf(g.ss, clst * 2) == SectorOf(g.ss, clst * 2 + 1) == SectorOf(g.ss / 2, clst)
    ensures OffsetIn(g.ss, clst * 2 + 1) == OffsetIn(g.ss, clst * 2) + 1 < g.ss
  {
    Aligned(clst, g.ss / 2, 2, 0);
    Aligned(clst, g.ss / 2, 2, 1);
  }

  lemma Aligned32(g: Geometry, clst: nat, i: nat, sectors: nat)
    requires g.Valid(sectors) && i < 4
    ensures 0 < g.ss / 4
    ensures SectorOf(g.ss, clst * 4 + i) == SectorOf(g.ss, clst * 4) == SectorOf(g.ss / 4, clst)
    ensures OffsetIn(g.ss, clst * 4 + i) == OffsetIn(g.ss, clst * 4) + i < g.ss
  {
    Aligned(clst, g.ss / 4, 4, i);
    Aligned(clst, g.ss / 4, 4, 0);
  }

  // ---- get_fat and put_fat ----

  // get_fat: 1 for an index out of range, else the entry.
  method GetFat(fs: FatFs, clst: nat) returns (val: nat)
    requires fs.Valid()
    modifies fs`disk, fs`wflag, fs`winsect, fs.win
    ensures fs.Valid() && fs.Synced() == old(fs.Synced())
    ensures val == if 2 <= clst < fs.g.nFatent then Fat(fs.g, fs.Synced())[clst] else 1
    ensures if 2 <= clst < fs.g.nFatent then fs.g.InFat(fs.winsect) else fs.winsect == old(fs.winsect)
  {
    if clst < 2 || clst >= fs.g.nFatent {
      val := 1;
    } else {
      FatAt(fs.g, fs.Synced(), clst);
      match fs.g.fsType
      case Fat12 => val := GetFat12(fs, clst);
      case Fat16 => val := GetFat16(fs, clst);
      case Fat32 => val := GetFat32(fs, clst);
    }
  }

  method GetFat12(fs: FatFs, clst: nat) returns (val: nat)
    requires fs.Valid() && clst + clst / 2 + 1 < fs.g.FatOctets()
    modifies fs`disk, fs`wflag, fs`winsect, fs.win
    ensures fs.Valid() && fs.Synced() == old(fs.Synced()) && fs.g.InFat(fs.winsect)
    ensures val == Entry(Fat12, Octets(fs.g, fs.Synced()), clst)
  {
    hide Geometry.Valid, Geometry.FatOctets, Octets, SectorOf, OffsetIn, FatFs.Valid, FatFs.Synced, FatStore,
         ValidDisk, LdWord, LdDword;
    Sane(fs);
    var ss := fs.g.ss;
    var bc := clst + clst / 2;
    MoveToFat(fs, SectorOf(ss, bc), bc);
    var wc := fs.win[OffsetIn(ss, bc)];
    bc := bc + 1;
    MoveToFat(fs, SectorOf(ss, bc), bc);
    var w := LdWord(wc, fs.win[OffsetIn(ss, bc)]);
    val := if clst % 2 == 1 then w / 16 else w % 0x1000;
  }

  method GetFat16(fs: FatFs, clst: nat) returns (val: nat)
    requires fs.Valid() && clst * 2 + 1 < fs.g.FatOctets()
    modifies fs`disk, fs`wflag, fs`winsect, fs.win
    ensures fs.Valid() && fs.Synced() == old(fs.Synced()) && fs.g.InFat(fs.winsect)
    ensures val == Entry(Fat16, Octets(fs.g, fs.Synced()), clst)
  {
    hide Geometry.Valid, Geometry.FatOctets, Octets, SectorOf, OffsetIn, FatFs.Valid, FatFs.Synced, FatStore,
         ValidDisk, LdWord, LdDword;
    Sane(fs);
    var ss := fs.g.ss;
    Aligned16(fs.g, clst, |fs.disk|);
    MoveToFat(fs, SectorOf(ss / 2, clst), clst * 2);
    WindowShows(fs, SectorOf(ss / 2, clst), clst * 2 + 1);
    var p := OffsetIn(ss, clst * 2);
    val := LdWord(fs.win[p], fs.win[p + 1]);
  }

  method GetFat32(fs: FatFs, clst: nat) returns (val: nat)
    requires fs.Valid() && clst * 4 + 3 < fs.g.FatOctets()
    modifies fs`disk, fs`wflag, fs`winsect, fs.win
    ensures fs.Valid() && fs.Synced() == old(fs.Synced()) && fs.g.InFat(fs.winsect)
    ensures val == Entry(Fat32, Octets(fs.g, fs.Synced()), clst)
  {
    hide Geometry.Valid, Geometry.FatOctets, Octets, SectorOf, OffsetIn, FatFs.Valid, FatFs.Synced, FatStore,
         ValidDisk, LdWord, LdDword;
    Sane(fs);
    var ss := fs.g.ss;
    Aligned32(fs.g, clst, 1, |fs.disk|);
    Aligned32(fs.g, clst, 2, |fs.disk|);
    Aligned32(fs.g, clst, 3, |fs.disk|);
    MoveToFat(fs, SectorOf(ss / 4, clst), clst * 4);
    WindowShows(fs, SectorOf(ss / 4, clst), clst * 4 + 1);
    WindowShows(fs, SectorOf(ss / 4, clst), clst * 4 + 2);
    WindowShows(fs, SectorOf(ss / 4, clst), clst * 4 + 3);
    var p := OffsetIn(ss, clst * 4);
    val := LdDword(fs.win[p], fs.win[p + 1], fs.win[p + 2], fs.win[p + 3]) % 0x1000_0000;
  }

  // What a window standing on FAT sector q shows of octet k of that sector.
  lemma WindowShows(fs: FatFs, q: nat, k: nat)
    requires fs.Valid() && k < fs.g.FatOctets() && q == SectorOf(fs.g.ss, k)
    requires fs.winsect == fs.g.fatbase + q && fs.winsect < |fs.disk| && fs.win[..fs.g.ss] == fs.Synced()[fs.winsect]
    ensures 0 <= OffsetIn(fs.g.ss, k) < fs.g.ss <= fs.win.Length
    ensures fs.win[OffsetIn(fs.g.ss, k)] == Octets(fs.g, fs.Synced())[k]
  {
    OctetInside(fs.g, k, |fs.disk|);
    hide Geometry.Valid, Geometry.FatOctets, SectorOf, OffsetIn;
    assert fs.win[OffsetIn(fs.g.ss, k)] == fs.win[..fs.g.ss][OffsetIn(fs.g.ss, k)];
  }

  // put_fat: refuses an index out of range, else updates that entry alone.
  method PutFat(fs: FatFs, clst: nat, val: nat) returns (ok: bool)
    requires fs.Valid() && val < 0x1000_0000
    modifies fs`disk, fs`wflag, fs`winsect, fs.win
    ensures fs.Valid()
    ensures ok == (2 <= clst < fs.g.nFatent)
    ensures !ok ==> fs.Synced() == old(fs.Synced()) && fs.winsect == old(fs.winsect)
    ensures ok ==> fs.g.InFat(fs.winsect) && FatStore(fs.g, old(fs.Synced()), fs.Synced())
    ensures ok ==> Fat(fs.g, fs.Synced()) == old(Fat(fs.g, fs.Synced()))[clst := Stored(fs.g.fsType, val)]
    ensures ok ==> Holds(fs.g.fsType, old(Octets(fs.g, fs.Synced())), clst)
    ensures ok ==> Octets(fs.g, fs.Synced()) == Put(fs.g.fsType, old(Octets(fs.g, fs.Synced())), clst, val)
  {
    if clst < 2 || clst >= fs.g.nFatent {
      return false;
    }
    ghost var before := fs.Synced();
    FatAt(fs.g, before, clst);
    match fs.g.fsType {
      case Fat12 => PutFat12(fs, clst, val);
      case Fat16 => PutFat16(fs, clst, val);
      case Fat32 => PutFat32(fs, clst, val);
    }
    FatOfPut(fs.g, before, fs.Synced(), clst, val);
    return true;
  }

  method PutFat12(fs: FatFs, clst: nat, val: nat)
    requires fs.Valid() && clst + clst / 2 + 1 < fs.g.FatOctets()
    modifies fs`disk, fs`wflag, fs`winsect, fs.win
    ensures fs.Valid() && fs.g.InFat(fs.winsect) && FatStore(fs.g, old(fs.Synced()), fs.Synced())
    ensures Octets(fs.g, fs.Synced()) == Put(Fat12, old(Octets(fs.g, fs.Synced())), clst, val)
  {
    hide Geometry.Valid, Geometry.FatOctets, Octets, SectorOf, OffsetIn, FatFs.Valid, FatFs.Synced, FatStore, ValidDisk;
    Sane(fs);
    var ss := fs.g.ss;
    ghost var before := fs.Synced();
    var bc := clst + clst / 2;
    MoveToFat(fs, SectorOf(ss, bc), bc);
    var p := fs.win[OffsetIn(ss, bc)];
    StoreByte(fs, bc, OffsetIn(ss, bc), if clst % 2 == 1 then p % 16 + val % 16 * 16 else val % 0x100);
    ghost var between := fs.Synced();
    bc := bc + 1;
    MoveToFat(fs, SectorOf(ss, bc), bc);
    p := fs.win[OffsetIn(ss, bc)];
    StoreByte(fs, bc, OffsetIn(ss, bc), if clst % 2 == 1 then val / 16 % 0x100 else p / 16 * 16 + val / 0x100 % 16);
    FatStoreTwice(fs.g, before, between, fs.Synced());
  }

  method PutFat16(fs: FatFs, clst: nat, val: nat)
    requires fs.Valid() && clst * 2 + 1 < fs.g.FatOctets()
    modifies fs`disk, fs`wflag, fs`winsect, fs.win
    ensures fs.Valid() && fs.g.InFat(fs.winsect) && FatStore(fs.g, old(fs.Synced()), fs.Synced())
    ensures Octets(fs.g, fs.Synced()) == Put(Fat16, old(Octets(fs.g, fs.Synced())), clst, val)
  {
    hide Geometry.Valid, Geometry.FatOctets, Octets, SectorOf, OffsetIn, FatFs.Valid, FatFs.Synced, FatStore, ValidDisk;
    Sane(fs);
    var ss := fs.g.ss;
    Aligned16(fs.g, clst, |fs.disk|);
    MoveToFat(fs, SectorOf(ss / 2, clst), clst * 2);
    var p := OffsetIn(ss, clst * 2);
    StorePair(fs, clst * 2, p, val % 0x100, val / 0x100 % 0x100);
  }

  // ST_WORD: two octets side by side in the window.
  method StorePair(fs: FatFs, k: nat, p: nat, lo: byte, hi: byte)
    requires fs.Valid() && k + 1 < fs.g.FatOctets()
    requires fs.winsect == fs.g.fatbase + SectorOf(fs.g.ss, k) == fs.g.fatbase + SectorOf(fs.g.ss, k + 1)
    requires p == OffsetIn(fs.g.ss, k) && p + 1 == OffsetIn(fs.g.ss, k + 1)
    modifies fs`wflag, fs.win
    ensures fs.Valid() && FatStore(fs.g, old(fs.Synced()), fs.Synced())
    ensures Octets(fs.g, fs.Synced()) == old(Octets(fs.g, fs.Synced()))[k := lo][k + 1 := hi]
  {
    hide Geometry.Valid, Geometry.FatOctets, Octets, SectorOf, OffsetIn, FatFs.Valid, FatFs.Synced, FatStore, ValidDisk;
    ghost var before := fs.Synced();
    StoreByte(fs, k, p, lo);
    ghost var between := fs.Synced();
    StoreByte(fs, k + 1, p + 1, hi);
    FatStoreTwice(fs.g, before, between, fs.Synced());
  }

  method PutFat32(fs: FatFs, clst: nat, val: nat)
    requires fs.Valid() && clst * 4 + 3 < fs.g.FatOctets()
    modifies fs`disk, fs`wflag, fs`winsect, fs.win
    ensures fs.Valid() && fs.g.InFat(fs.winsect) && FatStore(fs.g, old(fs.Synced()), fs.Synced())
    ensures Octets(fs.g, fs.Synced()) == Put(Fat32, old(Octets(fs.g, fs.Synced())), clst, val)
  {
    hide Geometry.Valid, Geometry.FatOctets, Octets, SectorOf, OffsetIn, FatFs.Valid, FatFs.Synced, FatStore, ValidDisk;
    Sane(fs);
    var ss := fs.g.ss;
    ghost var before := fs.Synced();
    Aligned32(fs.g, clst, 1, |fs.disk|);
    Aligned32(fs.g, clst, 2, |fs.disk|);
    Aligned32(fs.g, clst, 3, |fs.disk|);
    MoveToFat(fs, SectorOf(ss / 4, clst), clst * 4);
    var p := OffsetIn(ss, clst * 4);
    WindowShows(fs, SectorOf(ss / 4, clst), clst * 4 + 3);
    var top := fs.win[p + 3] / 16 * 16 + val / 0x100_0000 % 16;
    StorePair(fs, clst * 4, p, val % 0x100, val / 0x100 % 0x100);
    ghost var between := fs.Synced();
    StorePair(fs, clst * 4 + 2, p + 2, val / 0x1_0000 % 0x100, top);
    FatStoreTwice(fs.g, before, between, fs.Synced());
  }
}
