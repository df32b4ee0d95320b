// Formatting and mounting agree (component/fatfs/ff.c, the layout part of f_mkfs and the
// boot-sector part of find_volume).
module FatFormat {
  import opened Arith
  import opened FatVolume
  import opened FatEntries
  import opened Options

  const MIN_FAT16 := 4086
  const MIN_FAT32 := 65526
  const N_ROOTDIR := 512

  // 32-bit unsigned arithmetic.
  function U32(x: int): (r: nat)
    ensures 0 <= x < 0x1_0000_0000 ==> r == x
    ensures r < 0x1_0000_0000
  {
    x % 0x1_0000_0000
  }

  predicate SectorSize(ss: nat) {
    ss == 512 || ss == 1024 || ss == 2048 || ss == 4096
  }

  predicate ClusterSize(au: nat) {
    au == 1 || au == 2 || au == 4 || au == 8 || au == 16 || au == 32 || au == 64 || au == 128
  }

  // x & (x - 1) is zero.
  predicate PowerOfTwo(x: nat) {
    x > 0 && (x == 1 || (x % 2 == 0 && PowerOfTwo(x / 2)))
  }

  // ---- The cluster size ----

  const VST := [1024, 512, 256, 128, 64, 32, 16, 8, 4, 2, 0]
  const CST := [32768, 16384, 8192, 4096, 2048, 16384, 8192, 4096, 2048, 1024, 512]

  // Bytes of a cluster by the size of the volume in units of 1 024 000 bytes: small ones on
  // volumes that will be FAT12 or FAT16, up from 64 units on as for FAT32.
  ghost function ClusterBytesFor(units: nat): nat {
    if units < 2 then 512 else if units < 4 then 1024 else if units < 8 then 2048 else if units < 16 then 4096
    else if units < 32 then 8192 else if units < 64 then 16384 else if units < 128 then 2048
    else if units < 256 then 4096 else if units < 512 then 8192 else if units < 1024 then 16384 else 32768
  }

  // Sectors of a cluster: from 512 on a size is meant in bytes, and 1 to 128 are possible.
  ghost function ClusterFor(size: nat, ss: nat): nat
    requires SectorSize(ss)
  {
    var n := if size >= 512 then size / ss else size;
    if n == 0 then 1 else if n > 128 then 128 else n
  }

  // How f_mkfs settles the sectors of a cluster: from the size asked for, a power of two in
  // bytes or sectors, or else from the volume's.
  method SelectAu(nVol: nat, ss: nat, au0: nat) returns (au: nat)
    requires SectorSize(ss)
    ensures ClusterSize(au)
    ensures ClusterSize(au0) ==> au == au0
    ensures au == ClusterFor(if exists k: nat ::
                                  Twos(k) == au0 then au0 else ClusterBytesFor(nVol * ss / 1_024_000), ss)
  {
    hide PowerOfTwo, Twos;
    IsPower(au0);
    Units(nVol, ss);
    ghost var size := if PowerOfTwo(au0) then au0 else ClusterBytesFor(nVol * ss / 1_024_000);
    au := au0;
    if !PowerOfTwo(au) {
      au := 0;
    }
    if au == 0 {
      var vs := nVol / (2000 / (ss / 512));
      var i := 0;
      while vs < VST[i]
        invariant i < 11 && forall k :: 0 <= k < i ==> vs < VST[k]
        decreases 11 - i
      {
        i := i + 1;
      }
      TableFor(vs, i);
      au := CST[i];
      TablePowers();
    }
    assert au == size;
    SmallPowers();
    if au >= 512 {
      SectorPower(ss);
      PowerDivides(au, ss);
      au := au / ss;
    }
    if au == 0 {
      au := 1;
    }
    if au > 128 {
      au := 128;
    }
    assert au == ClusterFor(size, ss);
    SmallCluster(au);
  }

  // A power of two, in full.
  lemma {:induction false} IsPower(x: nat)
    ensures PowerOfTwo(x) <==> exists k: nat :: Twos(k) == x
    decreases x
  {
    if x % 2 == 0 && x > 0 {
      IsPower(x / 2);
      if k: nat :| Twos(k) == x {
        assert k > 0 && Twos(k - 1) == x / 2;
      }
      if k: nat :| Twos(k) == x / 2 {
        assert Twos(k + 1) == x;
      }
    } else if x == 1 {
      assert Twos(0) == 1;
    }
  }

  lemma Units(nVol: nat, ss: nat)
    requires SectorSize(ss)
    ensures nVol / (2000 / (ss / 512)) == nVol * ss / 1_024_000
  {
    if ss == 512 {
      ScaledUp(nVol, 2000, 512);
    } else if ss == 1024 {
      ScaledUp(nVol, 1000, 1024);
    } else if ss == 2048 {
      ScaledUp(nVol, 500, 2048);
    } else {
      ScaledUp(nVol, 250, 4096);
    }
  }

  lemma ScaledUp(n: nat, d: nat, f: nat)
    requires 0 < d && 0 < f
    ensures 0 < d * f && n * f / (d * f) == n / d
  {
    var q, r := n / d, n % d;
    Fundamental(n, d);
    MulStep(0, d, f);
    MulStep(r, d, f);
    assert n * f == q * (d * f) + r * f by { assert (q * d + r) * f == q * (d * f) + r * f; }
    DivModUnique(q, d * f, r * f);
  }

  lemma TableFor(units: nat, i: nat)
    requires i < 11 && units >= VST[i] && forall k :: 0 <= k < i ==> units < VST[k]
    ensures CST[i] == ClusterBytesFor(units)
  {
    assert i > 0 ==> units < VST[i - 1];
  }

  lemma TablePowers()
    ensures forall i :: 0 <= i < 11 ==> PowerOfTwo(CST[i]) && CST[i] >= 512
  {
    assert PowerOfTwo(1) && PowerOfTwo(2) && PowerOfTwo(4) && PowerOfTwo(8) && PowerOfTwo(16) && PowerOfTwo(32)
           && PowerOfTwo(64)
      && PowerOfTwo(128) && PowerOfTwo(256) && PowerOfTwo(512);
    assert PowerOfTwo(1024) && PowerOfTwo(2048) && PowerOfTwo(4096);
    assert PowerOfTwo(8192) && PowerOfTwo(16384);
    assert PowerOfTwo(32768);
  }

  lemma SmallPowers()
    ensures forall au :: ClusterSize(au) ==> PowerOfTwo(au)
    ensures PowerOfTwo(1) && PowerOfTwo(128)
  {
    assert PowerOfTwo(1) && PowerOfTwo(2) && PowerOfTwo(4) && PowerOfTwo(8) && PowerOfTwo(16) && PowerOfTwo(32)
           && PowerOfTwo(64)
      && PowerOfTwo(128);
  }

  lemma HalfOver(a: nat, b: nat)
    requires b > 0
    ensures 2 * a / (2 * b) == a / b
  {
    Fundamental(a, b);
    var q, r := a / b, a % b;
    Doubled(q, b);
    DivModUnique(q, 2 * b, 2 * r);
  }

  lemma Doubled(q: nat, b: nat)
    ensures q * (2 * b) == 2 * (q * b)
  {
  }

  // A power of two over a power of two is one, or nothing.
  lemma {:induction false} PowerDivides(x: nat, ss: nat)
    requires PowerOfTwo(x) && PowerOfTwo(ss)
    ensures x / ss == 0 || PowerOfTwo(x / ss)
    decreases x
  {
    if x > 1 && ss > 1 {
      HalfOver(x / 2, ss / 2);
      PowerDivides(x / 2, ss / 2);
    }
  }

  lemma SectorPower(ss: nat)
    requires SectorSize(ss)
    ensures PowerOfTwo(ss)
  {
    assert PowerOfTwo(1) && PowerOfTwo(2) && PowerOfTwo(4) && PowerOfTwo(8) && PowerOfTwo(16) && PowerOfTwo(32);
    assert PowerOfTwo(64) && PowerOfTwo(128) && PowerOfTwo(256) && PowerOfTwo(512) && PowerOfTwo(1024);
    assert PowerOfTwo(2048) && PowerOfTwo(4096);
  }

  lemma SmallCluster(au: nat)
    requires PowerOfTwo(au) && au <= 128
    ensures ClusterSize(au)
  {
    if au > 1 { assert PowerOfTwo(au / 2); }
    if au > 2 { assert PowerOfTwo(au / 2 / 2); }
    if au > 4 { assert PowerOfTwo(au / 2 / 2 / 2); }
    if au > 8 { assert PowerOfTwo(au / 2 / 2 / 2 / 2); }
    if au > 16 { assert PowerOfTwo(au / 2 / 2 / 2 / 2 / 2); }
    if au > 32 { assert PowerOfTwo(au / 2 / 2 / 2 / 2 / 2 / 2); }
    if au > 64 { assert PowerOfTwo(au / 2 / 2 / 2 / 2 / 2 / 2 / 2); }
  }

  // ---- The layout ----

  function TypeFor(nClst: nat): FatType {
    if nClst >= MIN_FAT32 then Fat32 else if nClst >= MIN_FAT16 then Fat16 else Fat12
  }

  // Octets a FAT for so many clusters takes, in 32-bit arithmetic.
  function FatNeed(t: FatType, nClst: nat): nat {
    match t
    case Fat12 => U32(nClst * 3 + 1) / 2 + 3
    case Fat16 => U32(nClst * 2) + 4
    case Fat32 => U32(nClst * 4 + 8)
  }

  datatype Layout = Layout(fmt: FatType, au: nat, nRsv: nat, nFat: nat, nDir: nat, nClst: nat)

  // Reserved, FAT and directory sectors before alignment.
  function Sizes(nVol: nat, ss: nat, au: nat): Layout
    requires SectorSize(ss) && ClusterSize(au)
  {
    var nClst := nVol / au;
    var t := TypeFor(nClst);
    var nFat := Ceil(FatNeed(t, nClst), ss);
    if t == Fat32 then Layout(t, au, 32, nFat, 0, nClst) else Layout(t, au, 1, nFat, N_ROOTDIR * SZ_DIRE / ss, nClst)
  }

  // How far the data area moves to the next erase block.
  function Gap(bData: nat, block: nat): nat
    requires block > 0
  {
    U32(U32(bData + block - 1) / block * block - bData)
  }

  // The layout f_mkfs arrives at, unless it gives up: one FAT, data aligned to erase
  // blocks of a power of two of sectors.
  function MakeLayout(nVol: nat, bVol: nat, ss: nat, au: nat, block: nat): Option<Layout>
    requires SectorSize(ss) && ClusterSize(au) && block > 0
  {
    var l := Sizes(nVol, ss, au);
    var bData := U32(bVol + l.nRsv + l.nFat + l.nDir);
    if nVol < U32(bData + au - bVol) then None else
      var n := Gap(bData, block);
      var m := if l.fmt == Fat32 then l.(nRsv := l.nRsv + n) else l.(nFat := l.nFat + n);
      var nClst := U32(nVol - m.nRsv - m.nFat - m.nDir) / au;
      if (l.fmt == Fat16 && nClst < MIN_FAT16) || (l.fmt == Fat32 && nClst < MIN_FAT32) then None
          else Some(m.(nClst := nClst))
  }

  // ---- The boot sector ----

  // The BIOS parameter block, each field in the width it has on disk.
  datatype Bpb = Bpb(bytsPerSec: nat, secPerClus: nat, rsvdSecCnt: nat, numFats: nat, rootEntCnt: nat,
                     totSec16: nat, totSec32: nat,
                     fatSz16: nat, fatSz32: nat)

  function MakeBpb(l: Layout, nVol: nat, ss: nat): Bpb {
    Bpb(ss % 0x10000, l.au % 0x100, l.nRsv % 0x10000, 1, if l.fmt == Fat32 then 0 else N_ROOTDIR,
        if nVol < 0x10000 then nVol else 0, if nVol < 0x10000 then 0 else nVol,
        if l.fmt == Fat32 then 0 else l.nFat % 0x10000, if l.fmt == Fat32 then l.nFat else 0)
  }

  // ---- find_volume ----

  // The checks find_volume makes on a boot sector found at `bsect`, and the volume it
  // mounts.
  function FindVolume(b: Bpb, ss: nat, bsect: nat): Option<Geometry>
    requires SectorSize(ss)
  {
    if b.bytsPerSec != ss || (b.numFats != 1 && b.numFats != 2) || !ClusterSize(b.secPerClus)
      || b.rootEntCnt % EntriesPerSector(ss) != 0 || b.rsvdSecCnt == 0 || TotSect(b) < SysSect(b, ss) then None
    else Mounted(b, ss, bsect, (TotSect(b) - SysSect(b, ss)) / b.secPerClus)
  }

  function EntriesPerSector(ss: nat): (n: nat)
    requires SectorSize(ss)
    ensures n > 0
  {
    ss / SZ_DIRE
  }

  function FatSz(b: Bpb): nat {
    if b.fatSz16 != 0 then b.fatSz16 else b.fatSz32
  }

  function TotSect(b: Bpb): nat {
    if b.totSec16 != 0 then b.totSec16 else b.totSec32
  }

  // Reserved, FAT and root directory sectors.
  function SysSect(b: Bpb, ss: nat): nat
    requires SectorSize(ss)
  {
    U32(b.rsvdSecCnt + U32(FatSz(b) * b.numFats) + b.rootEntCnt / EntriesPerSector(ss))
  }

  // Octets find_volume wants in a FAT of so many entries.
  function EntriesNeed(t: FatType, nFatent: nat): nat {
    match t
    case Fat32 => U32(nFatent * 4)
    case Fat16 => U32(nFatent * 2)
    case Fat12 => U32(nFatent * 3) / 2 + nFatent % 2
  }

  function Mounted(b: Bpb, ss: nat, bsect: nat, nclst: nat): Option<Geometry>
    requires SectorSize(ss)
  {
    var fmt, nFatent := TypeFor(nclst), U32(nclst + 2);
    if nclst == 0 || (fmt == Fat32 <==> b.rootEntCnt != 0) || FatSz(b) < Ceil(EntriesNeed(fmt, nFatent), ss) then None
    else Some(Geometry(fmt, ss, b.secPerClus, b.numFats, nFatent, FatSz(b), U32(bsect + b.rsvdSecCnt),
                       U32(bsect + SysSect(b, ss))))
  }

  // Sectors so many octets take, in 32-bit arithmetic.
  function Ceil(x: nat, ss: nat): nat
    requires SectorSize(ss)
  {
    U32(x + ss - 1) / ss
  }

  // ---- Agreement ----

  // No sum of the layout leaves 32 bits, and the erase block is one f_mkfs takes.
  predicate NoWrap(nVol: nat, bVol: nat, ss: nat, au: nat, block: nat)
    requires SectorSize(ss) && ClusterSize(au)
  {
    var l := Sizes(nVol, ss, au);
    && 0 < block <= 32768 && 0 < nVol && bVol + nVol < 0x1_0000_0000 && nVol / au * 4 + 8 + ss < 0x1_0000_0000
    && bVol + l.nRsv + l.nFat + l.nDir + au + block < 0x1_0000_0000
  }

  // The first multiple of a block from a sector on.
  function AlignUp(sector: nat, block: nat): nat
    requires block > 0
  {
    (sector + block - 1) / block * block
  }

  // Between the aligned end of the reserved, FAT and directory sectors and the end of the
  // volume there is room for a cluster.
  predicate RoomLeft(nVol: nat, bVol: nat, ss: nat, au: nat, block: nat)
    requires SectorSize(ss) && ClusterSize(au) && block > 0
  {
    var l := Sizes(nVol, ss, au);
    AlignUp(bVol + l.nRsv + l.nFat + l.nDir, block) + au <= bVol + nVol
  }

  // The move to the next block is shorter than a block.
  lemma GapBelow(bData: nat, block: nat)
    requires 0 < block && bData + block < 0x1_0000_0000
    ensures Gap(bData, block) < block && (bData + Gap(bData, block)) % block == 0
    ensures bData + Gap(bData, block) == AlignUp(bData, block)
  {
    var x := bData + block - 1;
    Fundamental(x, block);
    var q := x / block;
    assert q * block == x - x % block;
    assert bData <= q * block <= x;
    DivModUnique(q, block, 0);
  }

  lemma CeilSteps(x: nat, y: nat, ss: nat)
    requires SectorSize(ss) && x <= y && y + ss < 0x1_0000_0000
    ensures Ceil(x, ss) <= Ceil(y, ss) && x <= Ceil(x, ss) * ss && Ceil(x, ss) * ss < x + ss
  {
    if ss == 512 {
    } else if ss == 1024 {
    } else if ss == 2048 {
    } else {
    }
  }

  lemma HalfUp(n: nat)
    ensures (n * 3 + 1) / 2 + 3 == (n + 2) * 3 / 2 + (n + 2) % 2
  {
    var k := n / 2;
    if n % 2 == 0 {
      assert n == 2 * k && (n * 3 + 1) / 2 == 3 * k && (n + 2) * 3 / 2 == 3 * k + 3;
    } else {
      assert n == 2 * k + 1 && (n * 3 + 1) / 2 == 3 * k + 2 && (n + 2) * 3 / 2 == 3 * k + 4;
    }
  }

  // The formatter and the mounter ask for the same FAT.
  lemma SameNeed(t: FatType, n: nat)
    requires n * 4 + 8 < 0x1_0000_0000
    ensures FatNeed(t, n) == EntriesNeed(t, n + 2)
    ensures EntriesNeed(t, n + 2)
            == (match t case Fat32 => (n + 2) * 4 case Fat16 => (n + 2) * 2 case Fat12 => (n + 2) * 3 / 2 + (n + 2) % 2)
  {
    hide U32;
    HalfUp(n);
    Fits32(n * 3 + 1);
    Fits32(n * 4 + 8);
    Fits32(n * 2);
    Fits32((n + 2) * 2);
    Fits32((n + 2) * 3);
  }

  lemma Fits32(x: nat)
    requires x < 0x1_0000_0000
    ensures U32(x) == x
  {
  }

  lemma NeedGrows(t: FatType, n: nat, most: nat)
    requires n <= most && most * 4 + 8 < 0x1_0000_0000
    ensures FatNeed(t, n) <= FatNeed(t, most) <= most * 4 + 8
  {
  }

  // A FAT sized for more clusters holds the entries of fewer.
  lemma FatHolds(t: FatType, n: nat, most: nat, ss: nat, nFat: nat)
    requires SectorSize(ss) && n <= most && most * 4 + 8 + ss < 0x1_0000_0000 && nFat >= Ceil(FatNeed(t, most), ss)
    ensures Ceil(EntriesNeed(t, n + 2), ss) <= nFat && EntriesNeed(t, n + 2) <= nFat * ss
  {
    hide Ceil, FatNeed, EntriesNeed, U32;
    SameNeed(t, n);
    NeedGrows(t, n, most);
    CeilSteps(FatNeed(t, n), FatNeed(t, most), ss);
    Scaled(Ceil(FatNeed(t, n), ss), nFat, ss);
  }

  lemma Scaled(a: nat, b: nat, d: nat)
    requires a <= b
    ensures a * d <= b * d
  {
    if a < b { MulStep(a, b, d); }
  }

  // What the arithmetic of a layout amounts to when nothing wraps.
  lemma LayoutFacts(nVol: nat, bVol: nat, ss: nat, au: nat, block: nat)
    requires SectorSize(ss) && ClusterSize(au) && NoWrap(nVol, bVol, ss, au, block)
    ensures var l, s := MakeLayout(nVol, bVol, ss, au, block), Sizes(nVol, ss, au);
            l.Some? ==>
              && l.value.fmt == s.fmt == TypeFor(nVol / au) && l.value.au == au && l.value.nDir == s.nDir
              && 0 < l.value.nRsv < 0x10000 && s.nFat <= l.value.nFat && s.nFat == Ceil(FatNeed(s.fmt, nVol / au), ss)
              && l.value.nRsv + l.value.nFat <= s.nRsv + s.nFat + block
              && l.value.nClst == U32(nVol - l.value.nRsv - l.value.nFat - l.value.nDir) / au
              && (l.value.fmt == Fat16 ==> l.value.nClst >= MIN_FAT16)
              && (l.value.fmt == Fat32 ==> l.value.nClst >= MIN_FAT32)
              && (bVol + l.value.nRsv + l.value.nFat + l.value.nDir) % block == 0
              && bVol + l.value.nRsv + l.value.nFat + l.value.nDir == AlignUp(bVol + s.nRsv + s.nFat + s.nDir, block)
              && l.value.nDir == (if s.fmt == Fat32 then 0 else N_ROOTDIR * SZ_DIRE / ss)
  {
    hide Gap, Ceil, FatNeed, TypeFor, AlignUp;
    var s := Sizes(nVol, ss, au);
    Fits32(bVol + s.nRsv + s.nFat + s.nDir);
    GapBelow(bVol + s.nRsv + s.nFat + s.nDir, block);
  }

  // A FAT of 12 or 16 bits stays short enough for its field.
  lemma SmallFat(nClst: nat, ss: nat)
    requires SectorSize(ss) && nClst < MIN_FAT32
    ensures 0 < Ceil(FatNeed(TypeFor(nClst), nClst), ss) <= 0x101
  {
    hide U32;
    var t := TypeFor(nClst);
    Fits32(nClst * 3 + 1);
    Fits32(nClst * 2);
    Fits32(FatNeed(t, nClst) + ss - 1);
    assert 3 <= FatNeed(t, nClst) <= 131054;
    if ss == 512 {
    } else if ss == 1024 {
    } else if ss == 2048 {
    } else {
    }
  }

  lemma SomeFat(t: FatType, nClst: nat, ss: nat)
    requires SectorSize(ss) && nClst * 4 + 8 + ss < 0x1_0000_0000
    ensures 0 < Ceil(FatNeed(t, nClst), ss)
  {
    hide Ceil, U32;
    NeedGrows(t, 0, nClst);
    SameNeed(t, 0);
    CeilSteps(FatNeed(t, nClst), FatNeed(t, nClst), ss);
  }

  // The boot sector says what the layout is.
  lemma BootSector(l: Layout, nVol: nat, ss: nat)
    requires SectorSize(ss) && ClusterSize(l.au) && 0 < l.nRsv < 0x10000 && 0 < nVol
    requires 0 < l.nFat && (l.fmt != Fat32 ==> l.nFat < 0x10000) && l.nRsv + l.nFat + l.nDir < 0x1_0000_0000
    requires l.nDir == (if l.fmt == Fat32 then 0 else N_ROOTDIR * SZ_DIRE / ss)
    ensures var b := MakeBpb(l, nVol, ss);
            && FatSz(b) == l.nFat && TotSect(b) == nVol && SysSect(b, ss) == l.nRsv + l.nFat + l.nDir
            && b.bytsPerSec == ss && b.secPerClus == l.au && b.rsvdSecCnt == l.nRsv && b.numFats == 1
            && b.rootEntCnt % EntriesPerSector(ss) == 0 && (l.fmt == Fat32 <==> b.rootEntCnt == 0)
  {
    hide U32, EntriesPerSector;
    RootSectors(ss);
    Fits32(l.nFat);
    Fits32(l.nRsv + l.nFat + l.nDir);
    assert ss % 0x10000 == ss && l.au % 0x100 == l.au && l.nRsv % 0x10000 == l.nRsv;
  }

  lemma RootSectors(ss: nat)
    requires SectorSize(ss)
    ensures N_ROOTDIR / EntriesPerSector(ss) == N_ROOTDIR * SZ_DIRE / ss && N_ROOTDIR % EntriesPerSector(ss) == 0
    ensures 0 / EntriesPerSector(ss) == 0 && 0 % EntriesPerSector(ss) == 0
  {
  }

  lemma SameType(most: nat, n: nat)
    requires n <= most && (TypeFor(most) == Fat16 ==> n >= MIN_FAT16) && (TypeFor(most) == Fat32 ==> n >= MIN_FAT32)
    ensures TypeFor(n) == TypeFor(most)
  {
  }

  lemma Quotients(nVol: nat, sys: nat, au: nat)
    requires sys <= nVol && ClusterSize(au)
    ensures (nVol - sys) / au <= nVol / au && (nVol - sys) / au * au <= nVol - sys
    ensures (nVol - sys) / au == 0 <==> nVol < sys + au
  {
    if au == 1 {
    } else if au == 2 {
    } else if au == 4 {
    } else if au == 8 {
    } else if au == 16 {
    } else if au == 32 {
    } else if au == 64 {
    } else {
    }
  }

  // The volume as laid out.
  function Volume(l: Layout, bVol: nat, ss: nat): Geometry {
    Geometry(l.fmt, ss, l.au, 1, l.nClst + 2, l.nFat, bVol + l.nRsv, bVol + l.nRsv + l.nFat + l.nDir)
  }

  // Formatter and mounter agree: a layout f_mkfs arrives at is mounted, as laid out, if
  // and only if the alignment has left room for a cluster.
  lemma FormatThenMount(nVol: nat, bVol: nat, ss: nat, au: nat, block: nat)
    requires SectorSize(ss) && ClusterSize(au) && NoWrap(nVol, bVol, ss, au, block)
    requires MakeLayout(nVol, bVol, ss, au, block).Some?
    ensures var l := MakeLayout(nVol, bVol, ss, au, block).value;
            var g := FindVolume(MakeBpb(l, nVol, ss), ss, bVol);
            && (g.Some? <==> RoomLeft(nVol, bVol, ss, au, block))
            && (g.Some? ==> g.value == Volume(l, bVol, ss) && l.nClst == (nVol - l.nRsv - l.nFat - l.nDir) / au
                            && (bVol + l.nRsv + l.nFat + l.nDir) % block == 0)
  {
    hide MakeLayout, MakeBpb, Sizes, Ceil, FatNeed, EntriesNeed, U32, TypeFor, SysSect, TotSect, FatSz, AlignUp;
    var l := MakeLayout(nVol, bVol, ss, au, block).value;
    var most := nVol / au;
    var sys := l.nRsv + l.nFat + l.nDir;
    LayoutFacts(nVol, bVol, ss, au, block);
    Bounds(l, nVol, bVol, ss, au, block);
    BootSector(l, nVol, ss);
    if sys <= nVol {
      Quotients(nVol, sys, au);
      Fits32(nVol - sys);
      if RoomLeft(nVol, bVol, ss, au, block) {
        SameType(most, l.nClst);
        FatHolds(l.fmt, l.nClst, most, ss, l.nFat);
        Fits32(l.nClst + 2);
        Fits32(bVol + l.nRsv);
        Fits32(bVol + sys);
      }
    }
  }

  lemma Bounds(l: Layout, nVol: nat, bVol: nat, ss: nat, au: nat, block: nat)
    requires SectorSize(ss) && ClusterSize(au) && NoWrap(nVol, bVol, ss, au, block)
    requires MakeLayout(nVol, bVol, ss, au, block) == Some(l)
    ensures 0 < l.nFat && (l.fmt != Fat32 ==> l.nFat < 0x10000) && bVol + l.nRsv + l.nFat + l.nDir < 0x1_0000_0000
  {
    hide MakeLayout, Ceil, FatNeed;
    LayoutFacts(nVol, bVol, ss, au, block);
    SomeFat(l.fmt, nVol / au, ss);
    if l.fmt != Fat32 { SmallFat(nVol / au, ss); }
  }

  // What is mounted is a sound volume exactly when its cluster numbers fit 28 bits: the
  // areas lie one behind the other inside the drive, and the FAT holds every entry.
  lemma MountedSound(nVol: nat, bVol: nat, ss: nat, au: nat, block: nat)
    requires SectorSize(ss) && ClusterSize(au) && NoWrap(nVol, bVol, ss, au, block)
    requires MakeLayout(nVol, bVol, ss, au, block).Some? && RoomLeft(nVol, bVol, ss, au, block)
    ensures var l := MakeLayout(nVol, bVol, ss, au, block).value;
            Volume(l, bVol, ss).Valid(bVol + nVol) <==> l.nClst + 2 <= 0xFFF_FFFF
  {
    hide MakeLayout, MakeBpb, Sizes, Ceil, FatNeed, EntriesNeed, U32, TypeFor, FindVolume, AlignUp;
    var l := MakeLayout(nVol, bVol, ss, au, block).value;
    var sys := l.nRsv + l.nFat + l.nDir;
    LayoutFacts(nVol, bVol, ss, au, block);
    FormatThenMount(nVol, bVol, ss, au, block);
    Quotients(nVol, sys, au);
    FatHolds(l.fmt, l.nClst, nVol / au, ss, l.nFat);
    SameNeed(l.fmt, l.nClst);
    TypeBound(nVol / au);
  }

  // Beyond that the end mark of a chain, kept in 28 bits, reads back as a cluster number.
  lemma EndMarkReadsBack(nFatent: nat)
    ensures Stored(Fat32, 0xFFF_FFFF) >= nFatent <==> nFatent <= 0xFFF_FFFF
  {
  }

  lemma TypeBound(n: nat)
    ensures TypeFor(n) == Fat12 ==> n + 2 <= 0xFF7
    ensures TypeFor(n) == Fat16 ==> n + 2 <= 0xFFF7
  {
  }

  lemma SmallLayout()
    ensures Sizes(937, 512, 1) == Layout(Fat12, 1, 1, 3, 32, 937)
    ensures MakeLayout(937, 63, 512, 1, 1024).Some?
  {
  }

  // Alignment can eat the last cluster: a small volume on large erase blocks is laid out,
  // its cluster count wrapping, and then not mounted.
  lemma AlignmentEatsAll()
    ensures SectorSize(512) && ClusterSize(1) && NoWrap(937, 63, 512, 1, 1024)
    ensures MakeLayout(937, 63, 512, 1, 1024).Some?
    ensures FindVolume(MakeBpb(MakeLayout(937, 63, 512, 1, 1024).value, 937, 512), 512, 63) == None
  {
    hide FindVolume, MakeBpb, MakeLayout, Sizes;
    SmallLayout();
    FormatThenMount(937, 63, 512, 1, 1024);
  }
}
