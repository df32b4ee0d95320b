// What f_mkfs lays out and what find_volume mounts, in plain numbers: no 32-bit arithmetic,
// FAT sizes in bits (component/fatfs/ff.c, f_mkfs and find_volume).
module FatMount {
  import opened Arith
  import opened FatVolume
  import opened FatFormat
  import opened Options

  // ---- The sub-type ----

  // Bits of a FAT entry on a volume of so many clusters.
  ghost function EntrySize(clusters: nat): (bits: nat)
    ensures bits == 12 || bits == 16 || bits == 32
  {
    if clusters <= 4085 then 12 else if clusters <= 65525 then 16 else 32
  }

  ghost function WithBits(bits: nat): FatType {
    if bits == 12 then Fat12 else if bits == 16 then Fat16 else Fat32
  }

  // The least number of sectors that hold the entries of so many clusters and two more.
  ghost function LeastFat(clusters: nat, ss: nat): nat
    requires SectorSize(ss)
  {
    ((clusters + 2) * EntrySize(clusters) + 8 * ss - 1) / (8 * ss)
  }

  lemma LeastHolds(clusters: nat, ss: nat, n: nat)
    requires SectorSize(ss)
    ensures LeastFat(clusters, ss) <= n <==> (clusters + 2) * EntrySize(clusters) <= n * ss * 8
  {
    var x: nat := (clusters + 2) * EntrySize(clusters);
    CeilLeast(x, 8 * ss, n);
    assert n * (8 * ss) == n * ss * 8;
  }

  lemma CeilLeast(x: nat, d: nat, n: nat)
    requires d > 0
    ensures (x + d - 1) / d <= n <==> x <= n * d
  {
    var q := (x + d - 1) / d;
    Fundamental(x + d - 1, d);
    if n < q { MulStep(n, q, d); }
    if q < n { MulStep(q, n, d); }
  }

  // A number of octets rounded up from bits, and of sectors rounded up from octets.
  lemma TwiceUp(x: nat, ss: nat)
    requires 0 < ss
    ensures ((x + 7) / 8 + ss - 1) / ss == (x + 8 * ss - 1) / (8 * ss)
  {
    var y, q := (x + 7) / 8, (x + 8 * ss - 1) / (8 * ss);
    CeilLeast(x, 8 * ss, q);
    CeilLeast(x, 8, q * ss);
    CeilLeast(y, ss, q);
    var r := (y + ss - 1) / ss;
    CeilLeast(y, ss, r);
    CeilLeast(x, 8, r * ss);
    CeilLeast(x, 8 * ss, r);
    assert q * (8 * ss) == q * ss * 8 && r * (8 * ss) == r * ss * 8;
  }

  // The FAT f_mkfs makes, and the one find_volume asks for.
  lemma NeedInBits(clusters: nat, ss: nat)
    requires SectorSize(ss) && clusters * 4 + 8 + ss < 0x1_0000_0000
    ensures TypeFor(clusters) == WithBits(EntrySize(clusters))
    ensures Ceil(FatNeed(TypeFor(clusters), clusters), ss) == LeastFat(clusters, ss)
    ensures FatNeed(TypeFor(clusters), clusters) == EntriesNeed(TypeFor(clusters), clusters + 2)
  {
    hide U32;
    var t := TypeFor(clusters);
    var x: nat := (clusters + 2) * EntrySize(clusters);
    SameNeed(t, clusters);
    Eighths(clusters);
    Fits32((x + 7) / 8 + ss - 1);
    TwiceUp(x, ss);
  }

  lemma Eighths(clusters: nat)
    requires clusters * 4 + 8 < 0x1_0000_0000
    ensures EntriesNeed(TypeFor(clusters), clusters + 2) == ((clusters + 2) * EntrySize(clusters) + 7) / 8
    ensures ((clusters + 2) * EntrySize(clusters) + 7) / 8 <= clusters * 4 + 8
  {
    hide U32;
    SameNeed(TypeFor(clusters), clusters);
    var n := clusters + 2;
    if EntrySize(clusters) == 12 {
      var k := n / 2;
      assert n == 2 * k + n % 2;
      if n % 2 == 0 { assert n * 12 + 7 == 8 * (3 * k) + 7; } else { assert n * 12 + 7 == 8 * (3 * k + 2) + 3; }
    }
  }

  // ---- f_mkfs ----

  // The layout as f_mkfs wants it. Reserved sectors 32 or 1, a root directory of 512 entries
  // of 32 octets unless on FAT32, the least FAT, and the data area moved to the next block:
  // on FAT32 by more reserved sectors, else by a longer FAT. It gives up when not one cluster
  // fits before the move, or when too few are left for the sub-type after it.
  ghost function Planned(nVol: nat, bVol: nat, ss: nat, au: nat, block: nat): Option<Layout>
    requires SectorSize(ss) && ClusterSize(au) && 0 < block
  {
    var n := nVol / au;
    var bits, fat := EntrySize(n), LeastFat(n, ss);
    var rsv, dir := if bits == 32 then 32 else 1, if bits == 32 then 0 else 512 * 32 / ss;
    var data := bVol + rsv + fat + dir;
    var move := NextBlock(data, block) - data;
    var left := U32(nVol - (rsv + fat + dir + move)) / au;
    if nVol < rsv + fat + dir + au || (bits == 16 && left <= 4085) || (bits == 32 && left <= 65525) then None
    else if bits == 32 then Some(Layout(Fat32, au, rsv + move, fat, dir, left))
    else Some(Layout(WithBits(bits), au, rsv, fat + move, dir, left))
  }

  // The least multiple of a block from a sector on.
  ghost function NextBlock(sector: nat, block: nat): (to: nat)
    requires 0 < block
    ensures sector <= to < sector + block && to % block == 0
  {
    var r := sector % block;
    var to: nat := if r == 0 then sector else sector + block - r;
    Fundamental(sector, block);
    DivModUnique(if r == 0 then sector / block else sector / block + 1, block, 0);
    to
  }

  lemma NextIsAligned(sector: nat, block: nat)
    requires 0 < block
    ensures NextBlock(sector, block) == AlignUp(sector, block)
  {
    var q, r := sector / block, sector % block;
    Fundamental(sector, block);
    if r == 0 {
      DivModUnique(q, block, block - 1);
    } else {
      BehindBlock(sector, block, q, r);
      DivModUnique(q + 1, block, r - 1);
    }
  }

  lemma BehindBlock(sector: nat, block: nat, q: nat, r: nat)
    requires sector == q * block + r && 0 < r < block
    ensures sector + block - 1 == (q + 1) * block + (r - 1) && (q + 1) * block == sector + block - r
  {
  }

  lemma SizesInNumbers(nVol: nat, bVol: nat, ss: nat, au: nat, block: nat)
    requires SectorSize(ss) && ClusterSize(au) && NoWrap(nVol, bVol, ss, au, block)
    ensures var n := nVol / au;
            var bits := EntrySize(n);
            Sizes(nVol, ss, au) == Layout(WithBits(bits), au, if bits == 32 then 32 else 1, LeastFat(n, ss),
                                          if bits == 32 then 0 else 512 * 32 / ss, n)
  {
    hide U32, FatNeed, Ceil, LeastFat;
    NeedInBits(nVol / au, ss);
  }

  lemma LayoutInNumbers(nVol: nat, bVol: nat, ss: nat, au: nat, block: nat)
    requires SectorSize(ss) && ClusterSize(au) && NoWrap(nVol, bVol, ss, au, block)
    ensures MakeLayout(nVol, bVol, ss, au, block) == Planned(nVol, bVol, ss, au, block)
  {
    hide U32, FatNeed, Ceil, AlignUp, LeastFat, Gap, NextBlock, Sizes, SectorSize, ClusterSize;
    var s := Sizes(nVol, ss, au);
    SizesInNumbers(nVol, bVol, ss, au, block);
    Fits32(bVol + s.nRsv + s.nFat + s.nDir);
    Fits32(bVol + s.nRsv + s.nFat + s.nDir + au - bVol);
    GapBelow(bVol + s.nRsv + s.nFat + s.nDir, block);
    NextIsAligned(bVol + s.nRsv + s.nFat + s.nDir, block);
  }

  // ---- find_volume ----

  // The fields have the widths they have on disk.
  ghost predicate Fields(b: Bpb) {
    && b.bytsPerSec < 0x1_0000 && b.secPerClus < 0x100 && b.rsvdSecCnt < 0x1_0000 && b.numFats < 0x100
    && b.rootEntCnt < 0x1_0000 && b.totSec16 < 0x1_0000 && b.totSec32 < 0x1_0000_0000 && b.fatSz16 < 0x1_0000
    && b.fatSz32 < 0x1_0000_0000
  }

  // Sectors of a FAT, of the volume, and before its data.
  ghost function FatLen(b: Bpb): nat {
    if b.fatSz16 != 0 then b.fatSz16 else b.fatSz32
  }

  ghost function Total(b: Bpb): nat {
    if b.totSec16 != 0 then b.totSec16 else b.totSec32
  }

  ghost function Before(b: Bpb, ss: nat): nat
    requires SectorSize(ss)
  {
    b.rsvdSecCnt + FatLen(b) * b.numFats + b.rootEntCnt * 32 / ss
  }

  ghost function Clusters(b: Bpb, ss: nat): nat
    requires SectorSize(ss)
  {
    if Before(b, ss) <= Total(b) && 0 < b.secPerClus then (Total(b) - Before(b, ss)) / b.secPerClus else 0
  }

  // A boot sector of a FAT volume.
  ghost predicate Mountable(b: Bpb, ss: nat)
    requires SectorSize(ss)
  {
    var n := Clusters(b, ss);
    && b.bytsPerSec == ss && (b.numFats == 1 || b.numFats == 2) && ClusterSize(b.secPerClus) && 0 < b.rsvdSecCnt
    && b.rootEntCnt * 32 % ss == 0 && 0 < n && (EntrySize(n) == 32 <==> b.rootEntCnt == 0)
    && (n + 2) * EntrySize(n) <= FatLen(b) * ss * 8
  }

  // The sectors before the data are counted in 32 bits, and so are the octets of the FAT; a
  // cluster number has 28.
  ghost predicate InBounds(b: Bpb, ss: nat)
    requires SectorSize(ss)
  {
    Before(b, ss) < 0x1_0000_0000 && Clusters(b, ss) + 2 <= 0xFFF_FFFF
  }

  // The volume a boot sector describes.
  ghost function Described(b: Bpb, ss: nat, bsect: nat): Geometry
    requires SectorSize(ss)
  {
    Geometry(WithBits(EntrySize(Clusters(b, ss))), ss, b.secPerClus, b.numFats, Clusters(b, ss) + 2, FatLen(b),
             bsect + b.rsvdSecCnt, bsect + Before(b, ss))
  }

  lemma RootLen(b: Bpb, ss: nat)
    requires SectorSize(ss)
    ensures b.rootEntCnt / EntriesPerSector(ss) == b.rootEntCnt * 32 / ss
    ensures b.rootEntCnt % EntriesPerSector(ss) == 0 <==> b.rootEntCnt * 32 % ss == 0
  {
  }

  lemma SysIs(b: Bpb, ss: nat)
    requires SectorSize(ss) && Fields(b)
    ensures FatSz(b) == FatLen(b) && TotSect(b) == Total(b) && 0 <= FatLen(b) * b.numFats
    ensures Before(b, ss) < 0x1_0000_0000 ==> SysSect(b, ss) == Before(b, ss)
  {
    hide U32, EntriesPerSector;
    RootLen(b, ss);
    if Before(b, ss) < 0x1_0000_0000 {
      Fits32(FatLen(b) * b.numFats);
      Fits32(Before(b, ss));
    }
  }

  // Within these bounds find_volume mounts exactly the boot sectors of FAT volumes, as
  // described, and what it mounts is sound.
  lemma Mounts(b: Bpb, ss: nat, bsect: nat)
    requires SectorSize(ss) && Fields(b) && bsect + Total(b) < 0x1_0000_0000 && InBounds(b, ss)
    ensures FindVolume(b, ss, bsect) == if Mountable(b, ss) then Some(Described(b, ss, bsect)) else None
    ensures Mountable(b, ss) ==> Described(b, ss, bsect).Valid(bsect + Total(b))
  {
    hide U32, SysSect, TotSect, FatSz, EntriesPerSector, TypeFor, Ceil, EntriesNeed, FatNeed, LeastFat, EntrySize;
    var n := Clusters(b, ss);
    SysIs(b, ss);
    RootLen(b, ss);
    NeedInBits(n, ss);
    Fits32(n + 2);
    LeastHolds(n, ss, FatLen(b));
    if Before(b, ss) <= Total(b) {
      Fits32(bsect + b.rsvdSecCnt);
      Fits32(bsect + Before(b, ss));
    }
    if Mountable(b, ss) { Sound(b, ss, bsect); }
  }

  lemma Sound(b: Bpb, ss: nat, bsect: nat)
    requires SectorSize(ss) && Fields(b) && bsect + Total(b) < 0x1_0000_0000 && InBounds(b, ss) && Mountable(b, ss)
    ensures Described(b, ss, bsect).Valid(bsect + Total(b))
  {
    hide U32, EntriesPerSector;
    var n := Clusters(b, ss);
    Quotients(Total(b), Before(b, ss), b.secPerClus);
    Octets(n, FatLen(b), ss);
    Twice(FatLen(b), b.numFats);
  }

  lemma Octets(n: nat, fat: nat, ss: nat)
    requires (n + 2) * EntrySize(n) <= fat * ss * 8
    ensures match WithBits(EntrySize(n))
            case Fat12 => (n + 2) * 3 / 2 + (n + 2) % 2 <= fat * ss
            case Fat16 => (n + 2) * 2 <= fat * ss
            case Fat32 => (n + 2) * 4 <= fat * ss
  {
    var room: nat := fat * ss;
    var m := n + 2;
    if EntrySize(n) == 12 {
      var k := m / 2;
      assert m == 2 * k + m % 2;
    }
  }

  lemma Twice(fat: nat, fats: nat)
    requires fats == 1 || fats == 2
    ensures fat * fats == if fats == 2 then fat + fat else fat
  {
  }

  // Outside these bounds what it mounts is no sound volume.
  lemma MountsBeyond(b: Bpb, ss: nat, bsect: nat)
    requires SectorSize(ss) && Fields(b) && bsect + Total(b) < 0x1_0000_0000 && !InBounds(b, ss)
    requires bsect + b.rsvdSecCnt < 0x1_0000_0000
    requires FindVolume(b, ss, bsect).Some?
    ensures !FindVolume(b, ss, bsect).value.Valid(bsect + Total(b))
  {
    hide U32, TypeFor, Ceil, EntriesNeed, EntriesPerSector, SectorSize, ClusterSize, SysSect, FatSz, TotSect;
    var g := FindVolume(b, ss, bsect).value;
    SysIs(b, ss);
    if Before(b, ss) < 0x1_0000_0000 {
      NoNumber(Clusters(b, ss) + 2);
    } else {
      Overflows(b, ss, bsect);
    }
  }

  lemma NoNumber(n: nat)
    requires 0xFFF_FFFF < n < 0x1_0000_0002
    ensures U32(n) <= 2 || 0xFFF_FFFF < U32(n)
  {
  }

  // The data area of a volume whose sectors before it cannot be counted would begin too early.
  lemma Overflows(b: Bpb, ss: nat, bsect: nat)
    requires SectorSize(ss) && Fields(b) && bsect + Total(b) < 0x1_0000_0000 && 0x1_0000_0000 <= Before(b, ss)
    requires bsect + b.rsvdSecCnt < 0x1_0000_0000
    requires b.numFats == 1 || b.numFats == 2
    requires SysSect(b, ss) <= Total(b)
    ensures U32(bsect + SysSect(b, ss)) < U32(bsect + b.rsvdSecCnt) + FatLen(b) * b.numFats
  {
    hide U32, EntriesPerSector;
    RootLen(b, ss);
    Wrapped(b.rsvdSecCnt, FatLen(b) * b.numFats, b.rootEntCnt * 32 / ss);
    Fits32(bsect + SysSect(b, ss));
    Fits32(bsect + b.rsvdSecCnt);
  }

  lemma Wrapped(rsv: nat, fats: nat, dir: nat)
    requires fats < 0x2_0000_0000 && rsv < 0x1_0000 && dir < 0x1_0000 && 0x1_0000_0000 <= rsv + fats + dir
    ensures U32(rsv + U32(fats) + dir) < rsv + fats
  {
  }

  // There are such boot sectors: two FATs of 2^31 sectors each count as none.
  lemma CountWraps()
    ensures var b := Bpb(512, 1, 1, 2, 0, 0, 100000, 0, 0x8000_0000);
            Fields(b) && !InBounds(b, 512) && FindVolume(b, 512, 63).Some?
  {
    var b := Bpb(512, 1, 1, 2, 0, 0, 100000, 0, 0x8000_0000);
    assert SysSect(b, 512) == 1;
    assert Ceil(EntriesNeed(Fat32, 100001), 512) == 782;
  }
}
