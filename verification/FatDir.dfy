// Directory tables on the volume (ff.c: dir_sdi, dir_next, dir_alloc): slots of 32 octets
// in the sectors of the static root directory or of a chain of clusters.
module FatDir {
  import opened Arith
  import opened Bytes
  import opened FatVolume
  import opened FatEntries
  import opened FatChains
  import opened FatAlloc
  import opened FatSectors
  import opened FatFile

  datatype DirResult = DirOk | DirNoFile | DirDenied | DirIntErr

  // ---- Slots ----

  // Slots in a sector.
  function PerSector(ss: nat): nat {
    ss / SZ_DIRE
  }

  ghost function SlotOf(s: Sector, m: nat): seq<byte> {
    if (m + 1) * SZ_DIRE <= |s| then s[m * SZ_DIRE..(m + 1) * SZ_DIRE] else []
  }

  // Slot k of a table in these sectors.
  ghost function SlotAt(ss: nat, disk: seq<Sector>, sects: seq<nat>, k: nat): seq<byte>
    requires 0 < PerSector(ss)
  {
    var j := SectorOf(PerSector(ss), k);
    if j < |sects| && sects[j] < |disk| then SlotOf(disk[sects[j]], OffsetIn(PerSector(ss), k)) else []
  }

  // The table as a sequence of slots.
  ghost function Slots(ss: nat, disk: seq<Sector>, sects: seq<nat>): (r: seq<seq<byte>>)
    requires 0 < PerSector(ss)
    ensures |r| == |sects| * PerSector(ss)
  {
    seq(|sects| * PerSector(ss), k requires 0 <= k < |sects| * PerSector(ss) => SlotAt(ss, disk, sects, k))
  }

  // Sectors a table can be in: on the drive, away from the FAT area, each once.
  ghost predicate GoodSects(g: Geometry, sectors: nat, sects: seq<nat>) {
    && (forall j :: 0 <= j < |sects| ==> 0 < sects[j] < sectors && !g.InFatArea(sects[j]))
    && (forall i, j :: 0 <= i < j < |sects| ==> sects[i] != sects[j])
  }

  // Nothing outside the FAT area and the table changes.
  ghost predicate OnlyTable(g: Geometry, sects: seq<nat>, before: seq<Sector>, after: seq<Sector>) {
    && |before| == |after|
    && forall s: nat :: s < |before| && !g.InFatArea(s) && s !in sects ==> after[s] == before[s]
  }

  ghost function ChainSects(g: Geometry, chain: seq<nat>): (r: seq<nat>)
    ensures |r| == Room(g, chain)
  {
    seq(Room(g, chain), j requires 0 <= j < Room(g, chain) => SectAt(g, chain, j))
  }

  ghost function RootSects(root: nat, count: nat): (r: seq<nat>)
    ensures |r| == count
  {
    seq(count, j requires 0 <= j < count => root + j)
  }

  // Where slot k and the next one lie.
  lemma SlotPlace(n: nat, k: nat, count: nat)
    requires 0 < n && k < count * n
    ensures 0 <= SectorOf(n, k) < count && 0 <= OffsetIn(n, k) < n && k == SectorOf(n, k) * n + OffsetIn(n, k)
    ensures OffsetIn(n, k + 1) == 0 <==> OffsetIn(n, k) == n - 1
    ensures if OffsetIn(n, k + 1) == 0 then SectorOf(n, k + 1) == SectorOf(n, k) + 1
            else SectorOf(n, k + 1) == SectorOf(n, k) && OffsetIn(n, k + 1) == OffsetIn(n, k) + 1
    ensures k + 1 < count * n <==> SectorOf(n, k + 1) < count
  {
    DivBelow(k, count, n);
    var q, r := k / n, k % n;
    if r == n - 1 {
      DivModUnique(q + 1, n, 0);
      assert k + 1 == (q + 1) * n;
    } else {
      DivModUnique(q, n, r + 1);
    }
    if k + 1 < count * n { DivBelow(k + 1, count, n); }
    if q + 1 < count { MulStep(q + 1, count, n); }
    MulStep(q, count, n);
  }

  lemma SectorSlots(g: Geometry, sectors: nat)
    requires g.Valid(sectors)
    ensures 0 < PerSector(g.ss) && PerSector(g.ss) * SZ_DIRE == g.ss
  {
  }

  // ---- The directory object ----

  class Dir {
    const fs: FatFs
    const root: nat             // dirbase: root directory, its sector or on FAT32 its cluster
    const nRoot: nat            // n_rootdir: entries of a static root directory
    const sclust: nat           // table start cluster, 0: root
    var index: nat
    var clust: nat              // current cluster, 0 in a static table
    var sect: nat               // current sector
    var off: nat                // where in the window the current slot begins
    ghost var chain: seq<nat>           // the table's clusters, none of a static one
    ghost var others: set<seq<nat>>     // every other chain of the volume

    constructor (fs: FatFs, root: nat, nRoot: nat, sclust: nat, ghost chain: seq<nat>, ghost others: set<seq<nat>>)
      ensures this.fs == fs && this.root == root && this.nRoot == nRoot && this.sclust == sclust
      ensures this.chain == chain && this.others == others && index == 0 && clust == 0 && sect == 0 && off == 0
    {
      this.fs, this.root, this.nRoot, this.sclust := fs, root, nRoot, sclust;
      this.chain, this.others := chain, others;
      index, clust, sect, off := 0, 0, 0, 0;
    }

    ghost predicate Static() {
      fs.g.fsType != Fat32 && sclust == 0
    }

    // The root directory as find_volume leaves it, or a chain of clusters.
    ghost predicate Valid()
      reads `chain, `others, fs`disk, fs`wflag, fs`winsect, fs.win
    {
      fs.Valid() && Forest(Entries(fs), All(chain, others)) && chain !in others && Placed()
    }

    ghost predicate Placed()
      reads `chain
    {
      if Static() then
        && chain == [] && 0 < PerSector(fs.g.ss) && nRoot < 0x1_0000 && nRoot % PerSector(fs.g.ss) == 0
        && fs.g.fatbase + fs.g.FatSectors() <= root && root + nRoot / PerSector(fs.g.ss) <= fs.g.database
      else chain != [] && chain[0] == if sclust == 0 then root else sclust
    }

    // The table's sectors in order.
    ghost function Sects(): seq<nat>
      reads `chain
    {
      if Static() then RootSects(root, if 0 < PerSector(fs.g.ss) then nRoot / PerSector(fs.g.ss) else 0)
      else ChainSects(fs.g, chain)
    }

    // Standing at slot i.
    ghost predicate At(i: nat)
      reads `chain, `index, `clust, `sect, `off
    {
      var n := PerSector(fs.g.ss);
      && 0 < n && 0 < fs.g.csize && i < 0x1_0000 && i < |Sects()| * n
      && SectorOf(n, i) < |Sects()|
      && index == i && sect == Sects()[SectorOf(n, i)] && off == OffsetIn(n, i) * SZ_DIRE
      && if Static() then clust == 0
         else SectorOf(fs.g.csize, SectorOf(n, i)) < |chain| && clust == chain[SectorOf(fs.g.csize, SectorOf(n, i))]
    }
  }

  // Every slot of the table as readers of the volume see it.
  ghost function SlotsOf(d: Dir): seq<seq<byte>>
    requires d.fs.Valid()
    reads d`chain, d.fs`disk, d.fs`wflag, d.fs`winsect, d.fs.win
  {
    SectorSlots(d.fs.g, |d.fs.disk|);
    Slots(d.fs.g.ss, d.fs.Synced(), d.Sects())
  }

  lemma SectsGood(d: Dir)
    requires d.Valid()
    ensures GoodSects(d.fs.g, |d.fs.disk|, d.Sects()) && Clusters(d.fs.g, d.chain)
    ensures !d.Static() ==> forall j: nat :: j < |d.Sects()| ==> d.fs.g.database <= d.Sects()[j]
  {
    hide Geometry.Valid, Forest, Clusters, SectAt, Room, Entries;
    var g, sects := d.fs.g, d.Sects();
    ForestClusters(g, Entries(d.fs), d.chain, d.others);
    assert g.Valid(|d.fs.disk|);
    Areas(g, |d.fs.disk|);
    if !d.Static() {
      forall j | 0 <= j < |sects|
        ensures 0 < sects[j] < |d.fs.disk| && !g.InFatArea(sects[j]) && g.database <= sects[j]
      {
        SectInside(g, |d.fs.disk|, d.chain, j);
      }
      forall i, j | 0 <= i < j < |sects| ensures sects[i] != sects[j] {
        SectInjective(g, |d.fs.disk|, d.chain, i, j);
      }
    }
  }

  lemma Areas(g: Geometry, sectors: nat)
    requires g.Valid(sectors)
    ensures 0 < g.fatbase && g.database <= sectors && 0 < g.csize && 0 < g.ss
  {
  }

  // ---- dir_sdi ----

  // The cluster and the sector of slot i of a chain of clusters.
  lemma ChainPlace(d: Dir, k: nat, m: nat, i: nat)
    requires d.Valid() && !d.Static() && k < |d.chain| && i == k * (PerSector(d.fs.g.ss) * d.fs.g.csize) + m
    requires m < PerSector(d.fs.g.ss) * d.fs.g.csize
    ensures var n := PerSector(d.fs.g.ss);
            && 0 < n && 0 < d.fs.g.csize && i < |d.Sects()| * n && SectorOf(n, i) < |d.Sects()|
            && SectorOf(d.fs.g.csize, SectorOf(n, i)) == k && OffsetIn(n, i) == OffsetIn(n, m)
            && d.Sects()[SectorOf(n, i)] == Clust2Sect(d.fs.g, d.chain[k]) + SectorOf(n, m)
  {
    hide Geometry.Valid, Forest, Clusters, SectAt, Entries, FatFs.Valid, PerSector, SectorOf, OffsetIn, Room,
         Clust2Sect;
    Sane(d.fs);
    Areas(d.fs.g, |d.fs.disk|);
    SectorSlots(d.fs.g, |d.fs.disk|);
    var n, c := PerSector(d.fs.g.ss), d.fs.g.csize;
    SlotInChain(k, n, c, m);
    SectOfCluster(d.fs.g, d.chain, k, SectorOf(n, m));
    SlotBelow(n, i, |d.Sects()|);
  }

  lemma SlotBelow(n: nat, i: nat, count: nat)
    requires 0 < n && SectorOf(n, i) < count
    ensures i < count * n
  {
    Fundamental(i, n);
    MulStep(i / n, count, n);
  }

  // Slot m of cluster k, of c sectors of n slots.
  lemma SlotInChain(k: nat, n: nat, c: nat, m: nat)
    requires 0 < n && 0 < c && m < n * c
    ensures var i := k * (n * c) + m;
            && SectorOf(n, m) < c && SectorOf(n, i) == k * c + SectorOf(n, m) && OffsetIn(n, i) == OffsetIn(n, m)
            && SectorOf(c, SectorOf(n, i)) == k
  {
    Fundamental(m, n);
    QuotBelow(m, n, c);
    DivModUnique(k, c, m / n);
    Regroup(k, n, c, m);
    DivModUnique(k * c + m / n, n, m % n);
  }

  lemma QuotBelow(m: nat, n: nat, c: nat)
    requires 0 < n && m < n * c
    ensures 0 <= m / n < c
  {
    DivBelow(m, c, n);
  }

  lemma Regroup(k: nat, n: nat, c: nat, m: nat)
    requires 0 < n
    ensures k * (n * c) + m == (k * c + m / n) * n + m % n
  {
    Fundamental(m, n);
    assert k * (n * c) == k * c * n;
    assert (k * c + m / n) * n == k * c * n + m / n * n;
  }

  lemma StaticSlots(d: Dir)
    requires d.Valid() && d.Static()
    ensures var n := PerSector(d.fs.g.ss);
            0 < n && |d.Sects()| == d.nRoot / n && |SlotsOf(d)| == d.nRoot == d.nRoot / n * n
            && forall j :: 0 <= j < |d.Sects()| ==> d.Sects()[j] == d.root + j
  {
    hide Slots, PerSector, Geometry.Valid, Forest, FatFs.Valid;
    Fundamental(d.nRoot, PerSector(d.fs.g.ss));
  }

  lemma ChainSlots(d: Dir)
    requires d.Valid() && !d.Static()
    ensures |SlotsOf(d)| == |d.chain| * (PerSector(d.fs.g.ss) * d.fs.g.csize) && 0 < PerSector(d.fs.g.ss) * d.fs.g.csize
  {
    hide Slots, PerSector, Geometry.Valid, Forest, FatFs.Valid, Entries, All;
    Sane(d.fs);
    Areas(d.fs.g, |d.fs.disk|);
    SectorSlots(d.fs.g, |d.fs.disk|);
    var n, c := PerSector(d.fs.g.ss), d.fs.g.csize;
    hide Room;
    MulStep(0, n, c);
    RoomSlots(d.fs.g, d.chain, n);
  }

  lemma RoomSlots(g: Geometry, chain: seq<nat>, n: nat)
    ensures Room(g, chain) * n == |chain| * (n * g.csize)
  {
  }

  lemma Beyond(k: nat, count: nat, ic: nat, idx: nat, idx0: nat)
    requires k + 1 == count && ic <= idx && idx0 == k * ic + idx
    ensures count * ic <= idx0
  {
    assert (k + 1) * ic == k * ic + ic;
  }

  // The loop of dir_sdi: the cluster of the chain that holds a slot, and which of its
  // slots that is.
  method Follow(d: Dir, clst0: nat, idx0: nat, ic: nat) returns (found: bool, clst: nat, idx: nat, ghost k: nat)
    requires d.Valid() && !d.Static() && clst0 == d.chain[0] && ic == PerSector(d.fs.g.ss) * d.fs.g.csize
    modifies d.fs`disk, d.fs`wflag, d.fs`winsect, d.fs.win
    ensures d.Valid() && d.fs.Synced() == old(d.fs.Synced())
    ensures found <==> idx0 < |d.chain| * ic
    ensures found ==> k < |d.chain| && clst == d.chain[k] && idx < ic && idx0 == k * ic + idx
  {
    hide Geometry.Valid, FatFs.Valid, FatFs.Synced, Forest, Fat, PerSector;
    ChainSlots(d);
    clst, idx, k := clst0, idx0, 0;
    while idx >= ic
      invariant d.Valid() && d.fs.Synced() == old(d.fs.Synced())
      invariant k < |d.chain| && clst == d.chain[k] && idx0 == k * ic + idx
      decreases idx
    {
      ChainEntry(Entries(d.fs), d.chain, d.others, k);
      clst := GetFat(d.fs, clst);
      if clst < 2 || clst >= d.fs.g.nFatent {
        Beyond(k, |d.chain|, ic, idx, idx0);
        return false, clst, idx, k;
      }
      idx := idx - ic;
      k := k + 1;
    }
    MulStep(k, |d.chain|, ic);
    found := true;
  }

  lemma Start(d: Dir)
    requires d.Valid()
    ensures d.fs.Valid() && 0 < PerSector(d.fs.g.ss) && PerSector(d.fs.g.ss) * SZ_DIRE == d.fs.g.ss
    ensures 0 < d.fs.g.csize && 0 < d.fs.g.ss <= 4096
    ensures if d.Static() then d.chain == []
            else d.chain != [] && 2 <= d.chain[0] && d.chain[0] == if d.sclust == 0 then d.root else d.sclust
  {
    hide Geometry.Valid, Forest, PerSector;
    Sane(d.fs);
    Areas(d.fs.g, |d.fs.disk|);
    SectorSlots(d.fs.g, |d.fs.disk|);
    if !d.Static() { ChainEntry(Entries(d.fs), d.chain, d.others, 0); }
  }

  // dir_sdi: the object at slot idx, if the table has one.
  method DirSdi(d: Dir, idx0: nat) returns (res: DirResult)
    requires d.Valid() && idx0 < 0x1_0000
    modifies d`index, d`clust, d`sect, d`off, d.fs`disk, d.fs`wflag, d.fs`winsect, d.fs.win
    ensures d.Valid() && d.fs.Synced() == old(d.fs.Synced()) && SlotsOf(d) == old(SlotsOf(d))
    ensures res == if idx0 < |SlotsOf(d)| then DirOk else DirIntErr
    ensures res == DirOk ==> d.At(idx0)
  {
    hide Geometry.Valid, FatFs.Valid, FatFs.Synced, Forest, Fat, SectAt, Clust2Sect, Slots, PerSector, SectorOf,
         OffsetIn, Room, Entries, Dir.Valid, Dir.Sects;
    var g := d.fs.g;
    Start(d);
    d.index := idx0;
    var clst, idx := d.sclust, idx0;
    if clst == 0 && g.fsType == Fat32 {
      clst := d.root;
    }
    var n := PerSector(g.ss);
    var sect;
    if clst == 0 {
      StaticSlots(d);
      if idx >= d.nRoot {
        return DirIntErr;
      }
      SlotPlace(n, idx, d.nRoot / n);
      sect := d.root;
    } else {
      ChainSlots(d);
      var found;
      ghost var k;
      found, clst, idx, k := Follow(d, clst, idx, n * g.csize);
      if !found {
        return DirIntErr;
      }
      ChainPlace(d, k, idx, idx0);
      sect := Clust2Sect(g, clst);
    }
    d.clust := clst;
    d.sect := sect + SectorOf(n, idx);
    d.off := OffsetIn(n, idx) * SZ_DIRE;
    res := DirOk;
  }

  // ---- dir_next ----

  ghost predicate Zeros(s: Sector) {
    forall i :: 0 <= i < |s| ==> s[i] == 0
  }

  // What clearing a cluster leaves.
  ghost predicate Cleared(fs: FatFs, before: seq<Sector>, sect: nat, count: nat)
    reads fs`disk
  {
    && |fs.disk| == |before| && sect + count <= |before|
    && forall s: nat :: s < |before|
         ==> if sect <= s < sect + count then |fs.disk[s]| == fs.g.ss && Zeros(fs.disk[s]) else fs.disk[s] == before[s]
  }

  // The clean-up of a stretched table: zeros in every sector of a new cluster, written
  // through the window.
  method ClearCluster(fs: FatFs, sect: nat)
    requires fs.Valid() && fs.g.database <= sect && sect + fs.g.csize <= |fs.disk| && 0 < fs.g.csize
    modifies fs`disk, fs`wflag, fs`winsect, fs.win
    ensures fs.Valid() && !fs.wflag && fs.winsect == sect && Cleared(fs, old(fs.Synced()), sect, fs.g.csize)
  {
    hide Geometry.Valid, FatFs.Synced;
    Sane(fs);
    SyncWindow(fs);
    ghost var before := fs.disk;
    assert before == old(fs.Synced());
    forall i | 0 <= i < fs.g.ss {
      fs.win[i] := 0;
    }
    fs.winsect := sect;
    ghost var zero := fs.win[..fs.g.ss];
    assert Zeros(zero);
    var c := 0;
    while c < fs.g.csize
      invariant c <= fs.g.csize && fs.winsect == sect + c && ValidDisk(fs.g, fs.disk) && !fs.wflag
      invariant fs.win[..fs.g.ss] == zero && Cleared(fs, before, sect, c)
      invariant forall s: nat :: sect <= s < sect + c ==> fs.disk[s] == zero
    {
      WriteOut(fs);
      fs.winsect := fs.winsect + 1;
      c := c + 1;
    }
    fs.winsect := fs.winsect - c;
  }

  // The window forced out to the sector it is said to show.
  method WriteOut(fs: FatFs)
    requires ValidDisk(fs.g, fs.disk) && fs.win.Length == 4096 && fs.g.database <= fs.winsect < |fs.disk|
    modifies fs`disk, fs`wflag
    ensures fs.disk == old(fs.disk)[fs.winsect := fs.win[..fs.g.ss]] && ValidDisk(fs.g, fs.disk) && !fs.wflag
  {
    NotFat(fs.g, |fs.disk|, fs.winsect);
    fs.wflag := true;
    OneWrite(fs);
    SyncWindow(fs);
  }

  lemma NotFat(g: Geometry, sectors: nat, s: nat)
    requires g.Valid(sectors) && g.database <= s
    ensures !g.InFat(s) && !g.InFatArea(s)
  {
  }

  // A dirty window away from the FAT stands for one changed sector.
  lemma OneWrite(fs: FatFs)
    requires fs.Valid() && fs.wflag && !fs.g.InFat(fs.winsect)
    ensures fs.Synced() == fs.disk[fs.winsect := fs.win[..fs.g.ss]]
  {
  }

  // The slots of a table that has grown by a cleared cluster.
  lemma Grown(g: Geometry, before: seq<Sector>, after: seq<Sector>, chain: seq<nat>, ncl: nat)
    requires ValidDisk(g, before) && |after| == |before| && Clusters(g, chain + [ncl])
    requires forall s: nat ::
               s < |before| && !g.InFatArea(s) && !(Clust2Sect(g, ncl) <= s < Clust2Sect(g, ncl) + g.csize)
               ==> after[s] == before[s]
    requires forall s: nat :: Clust2Sect(g, ncl) <= s < Clust2Sect(g, ncl) + g.csize && s < |after|
               ==> |after[s]| == g.ss && Zeros(after[s])
    requires 0 < PerSector(g.ss)
    ensures var a, b := Slots(g.ss, before, ChainSects(g, chain)), Slots(g.ss, after, ChainSects(g, chain + [ncl]));
            MoreSlots(a, b) && |b| == |a| + PerSector(g.ss) * g.csize
  {
    hide Geometry.Valid, SectAt, Clust2Sect, PerSector, SlotOf, Zeros;
    var longer := chain + [ncl];
    var n := PerSector(g.ss);
    var p, q := ChainSects(g, chain), ChainSects(g, longer);
    RoomPrefix(g, chain, longer);
    var a, b := Slots(g.ss, before, p), Slots(g.ss, after, q);
    SectorSlots(g, |before|);
    GrownCount(|chain|, g.csize, n);
    forall k: nat | k < |a| ensures k < |b| && a[k] == b[k] {
      SlotPlace(n, k, |p|);
      var j := SectorOf(n, k);
      SectPrefix(g, chain, longer, j);
      SectInside(g, |before|, chain, j);
      OldSector(g, |before|, chain, ncl, j);
    }
    forall k: nat | |a| <= k < |b| ensures |b[k]| == SZ_DIRE && Zeros(b[k]) {
      SlotPlace(n, k, |q|);
      var j := SectorOf(n, k);
      SectInside(g, |before|, longer, j);
      NewSector(g, |before|, chain, ncl, k, j);
      ZeroSlot(after[q[j]], OffsetIn(n, k), n);
    }
  }

  lemma GrownCount(len: nat, c: nat, n: nat)
    ensures (len + 1) * c * n == len * c * n + n * c
  {
    assert (len + 1) * c == len * c + c;
  }

  lemma OldSector(g: Geometry, sectors: nat, chain: seq<nat>, ncl: nat, j: nat)
    requires g.Valid(sectors) && Clusters(g, chain + [ncl]) && j < Room(g, chain)
    ensures !(Clust2Sect(g, ncl) <= SectAt(g, chain, j) < Clust2Sect(g, ncl) + g.csize)
  {
    hide Geometry.Valid, Clust2Sect, SectAt;
    var longer := chain + [ncl];
    assert longer[|chain|] == ncl;
    assert forall i :: 0 <= i < |chain| ==> longer[i] == chain[i];
    var m := SectAt(g, chain, j) - Clust2Sect(g, ncl);
    if 0 <= m < g.csize { SectForeign(g, sectors, chain, j, ncl, m); }
  }

  lemma NewSector(g: Geometry, sectors: nat, chain: seq<nat>, ncl: nat, k: nat, j: nat)
    requires g.Valid(sectors) && 0 < PerSector(g.ss) && j == SectorOf(PerSector(g.ss), k) && j < Room(g, chain + [ncl])
    requires Room(g, chain) * PerSector(g.ss) <= k && k == j * PerSector(g.ss) + OffsetIn(PerSector(g.ss), k)
    requires OffsetIn(PerSector(g.ss), k) < PerSector(g.ss)
    ensures Clust2Sect(g, ncl) <= SectAt(g, chain + [ncl], j) < Clust2Sect(g, ncl) + g.csize
  {
    hide Geometry.Valid, Clust2Sect, SectAt, PerSector, SectorOf, OffsetIn;
    var n, r := PerSector(g.ss), Room(g, chain);
    if j < r { MulStep(j, r, n); }
    Areas(g, sectors);
    assert (|chain| + 1) * g.csize == r + g.csize;
    SectOfCluster(g, chain + [ncl], |chain|, j - r);
  }

  lemma ZeroSlot(s: Sector, m: nat, n: nat)
    requires Zeros(s) && |s| == n * SZ_DIRE && m < n
    ensures |SlotOf(s, m)| == SZ_DIRE && Zeros(SlotOf(s, m))
  {
  }

  // Zero slots behind the ones there were.
  ghost predicate MoreSlots(before: seq<seq<byte>>, after: seq<seq<byte>>) {
    before <= after && forall k :: |before| <= k < |after| ==> |after[k]| == SZ_DIRE && Zeros(after[k])
  }

  lemma SameTable(t: seq<seq<byte>>)
    ensures MoreSlots(t, t)
  {
  }

  // The disk behind a stretched table: FAT sectors, and the sectors of the new cluster.
  lemma StretchedDisk(g: Geometry, before: seq<Sector>, mid: seq<Sector>, after: seq<Sector>, chain: seq<nat>, ncl: nat)
    requires ValidDisk(g, before) && FatStore(g, before, mid) && Clusters(g, chain + [ncl])
    requires |after| == |mid| && Clust2Sect(g, ncl) + g.csize <= |mid|
    requires forall s: nat :: s < |mid| && !(Clust2Sect(g, ncl) <= s < Clust2Sect(g, ncl) + g.csize)
               ==> after[s] == mid[s]
    ensures OnlyTable(g, ChainSects(g, chain + [ncl]), before, after)
  {
    hide Geometry.Valid, Clust2Sect, SectAt;
    var sects := ChainSects(g, chain + [ncl]);
    forall s: nat | s < |before| && !g.InFatArea(s) && s !in sects ensures after[s] == before[s] {
      var m := s - Clust2Sect(g, ncl);
      if 0 <= m < g.csize { LastCluster(g, chain, ncl, m); }
    }
  }

  lemma LastCluster(g: Geometry, chain: seq<nat>, ncl: nat, m: nat)
    requires m < g.csize
    ensures Clust2Sect(g, ncl) + m in ChainSects(g, chain + [ncl])
  {
    SectOfCluster(g, chain + [ncl], |chain|, m);
    assert ChainSects(g, chain + [ncl])[|chain| * g.csize + m] == Clust2Sect(g, ncl) + m;
  }

  // What changes in the FAT area only leaves every table as it is.
  lemma FatOnly(g: Geometry, before: seq<Sector>, after: seq<Sector>, sects: seq<nat>)
    requires ValidDisk(g, before) && FatStore(g, before, after) && GoodSects(g, |before|, sects) && 0 < PerSector(g.ss)
    ensures |after| == |before| && Slots(g.ss, after, sects) == Slots(g.ss, before, sects)
    ensures OnlyTable(g, sects, before, after)
  {
    hide SlotOf, PerSector, SectorOf, OffsetIn;
  }

  // create_chain behind the last cluster of the table, and the clean-up.
  method Extend(d: Dir, clust: nat) returns (clst: nat)
    requires d.Valid() && !d.Static() && clust == d.chain[|d.chain| - 1]
    modifies d`chain, d.fs`disk, d.fs`wflag, d.fs`winsect, d.fs`lastClust, d.fs`freeClust, d.fs`fsiDirty, d.fs.win
    ensures d.Valid() && MoreSlots(old(SlotsOf(d)), SlotsOf(d))
    ensures OnlyTable(d.fs.g, d.Sects(), old(d.fs.Synced()), d.fs.Synced())
    ensures clst == 0 ==> NoFree(Entries(d.fs)) && SlotsOf(d) == old(SlotsOf(d)) && d.chain == old(d.chain)
    ensures clst != 0
            ==> d.chain == old(d.chain) + [clst]
                && |SlotsOf(d)| == |old(SlotsOf(d))| + PerSector(d.fs.g.ss) * d.fs.g.csize
    ensures old(CountRight(d.fs)) ==> CountRight(d.fs)
  {
    hide Geometry.Valid, FatFs.Valid, FatFs.Synced, Forest, Fat, SectAt, Clust2Sect, Slots, PerSector, Room,
         Clusters, FatStore, Free, ValidDisk, Passed, MoreSlots, OnlyTable;
    var g := d.fs.g;
    ghost var before, fat, table := d.fs.Synced(), Entries(d.fs), SlotsOf(d);
    Start(d);
    Sane(d.fs);
    SectsGood(d);
    SameTable(table);
    ChainEntry(fat, d.chain, d.others, |d.chain| - 1);
    Limits(g, |d.fs.disk|);
    clst := CreateChain(d.fs, clust);
    Sane(d.fs);
    FatOnly(g, before, d.fs.Synced(), d.Sects());
    if clst < 2 {
      NoneReserved(fat, All(d.chain, d.others));
      return;
    }
    ghost var mid, marked := d.fs.Synced(), Entries(d.fs);
    GrowForest(fat, d.chain, d.others, clst, Eoc(g.fsType));
    ghost var longer := d.chain + [clst];
    ForestClusters(g, marked, longer, d.others);
    assert longer[|d.chain|] == clst;
    ClusterPlace(g, |d.fs.disk|, clst);
    ClearCluster(d.fs, Clust2Sect(g, clst));
    CleanView(d.fs);
    ghost var after := d.fs.Synced();
    StretchedDisk(g, before, mid, after, d.chain, clst);
    ClearedDisk(g, before, mid, after, Clust2Sect(g, clst));
    SameFat(g, mid, after);
    Grown(g, before, after, d.chain, clst);
    d.chain := longer;
  }

  lemma ClusterPlace(g: Geometry, sectors: nat, c: nat)
    requires g.Valid(sectors) && 2 <= c < g.nFatent
    ensures g.database <= Clust2Sect(g, c) && Clust2Sect(g, c) + g.csize <= sectors && 0 < Clust2Sect(g, c)
  {
    Areas(g, sectors);
    ClusterSectors(g, sectors, c, g.csize - 1, c, 0);
  }

  lemma NoneReserved(fat: Table, chains: set<seq<nat>>)
    requires Forest(fat, chains)
    ensures forall k :: 2 <= k < |fat| ==> fat[k] != 1
  {
    forall k | 2 <= k < |fat| ensures fat[k] != 1 { NoReserved(fat, chains, k); }
  }

  lemma ClearedDisk(g: Geometry, before: seq<Sector>, mid: seq<Sector>, after: seq<Sector>, sect: nat)
    requires ValidDisk(g, before) && FatStore(g, before, mid) && ValidDisk(g, after) && |after| == |mid|
    requires g.database <= sect
    requires forall s: nat :: s < |mid| && !(sect <= s < sect + g.csize) ==> after[s] == mid[s]
    ensures forall s: nat :: s < g.database ==> s < |mid| && after[s] == mid[s]
    ensures forall s: nat :: s < |before| && !g.InFatArea(s) && !(sect <= s < sect + g.csize) ==> after[s] == before[s]
  {
    Areas(g, |mid|);
  }

  // What follows slot i: the same sector, the next of the root or of the cluster, the
  // first of the next cluster, or nothing.
  lemma Successor(d: Dir, i: nat)
    requires d.Valid() && d.At(i)
    ensures var n := PerSector(d.fs.g.ss);
            && 0 < n && 0 < d.fs.g.csize && 0 < d.sect && |SlotsOf(d)| == |d.Sects()| * n && i < |SlotsOf(d)|
            && (d.Static() <==> d.clust == 0)
            && (i + 1 < |SlotsOf(d)| <==> SectorOf(n, i + 1) < |d.Sects()|)
            && (OffsetIn(n, i + 1) != 0 ==>
                  i + 1 < |SlotsOf(d)| && SectorOf(n, i + 1) == SectorOf(n, i)
                      && d.sect == d.Sects()[SectorOf(n, i + 1)])
            && (OffsetIn(n, i + 1) == 0 ==> SectorOf(n, i + 1) == SectorOf(n, i) + 1)
            && (d.Static() ==> |SlotsOf(d)| == d.nRoot)
            && (d.Static() && OffsetIn(n, i + 1) == 0 && i + 1 < |SlotsOf(d)|
               ==> d.sect + 1 == d.Sects()[SectorOf(n, i + 1)])
  {
    hide Geometry.Valid, FatFs.Valid, Forest, PerSector, Entries, SectAt, SectorOf, OffsetIn, Room, GoodSects,
         Clusters, Slots;
    Start(d);
    var n := PerSector(d.fs.g.ss);
    SlotPlace(n, i, |d.Sects()|);
    SectPositive(d, SectorOf(n, i));
    if d.Static() {
      StaticSlots(d);
    } else {
      ChainCluster(d, SectorOf(d.fs.g.csize, SectorOf(n, i)));
    }
  }

  lemma ChainCluster(d: Dir, k: nat)
    requires d.Valid() && !d.Static() && k < |d.chain|
    ensures 2 <= d.chain[k]
  {
    ChainEntry(Entries(d.fs), d.chain, d.others, k);
  }

  lemma SectPositive(d: Dir, j: nat)
    requires d.Valid() && j < |d.Sects()|
    ensures 0 < d.Sects()[j]
  {
    SectsGood(d);
  }

  // The same in a chain, at the end of a sector.
  lemma NextInChain(d: Dir, i: nat)
    requires d.Valid() && d.At(i) && !d.Static() && OffsetIn(PerSector(d.fs.g.ss), i + 1) == 0
    ensures var n, c := PerSector(d.fs.g.ss), d.fs.g.csize;
            var k, j := SectorOf(c, SectorOf(n, i)), SectorOf(n, i + 1);
            && k < |d.chain|
            && (OffsetIn(c, j) != 0
               ==> i + 1 < |SlotsOf(d)| && SectorOf(c, j) == k && j < |d.Sects()| && d.sect + 1 == d.Sects()[j])
            && (OffsetIn(c, j) == 0 ==> (i + 1 < |SlotsOf(d)| <==> k + 1 < |d.chain|) && SectorOf(c, j) == k + 1)
  {
    hide Geometry.Valid, FatFs.Valid, Forest, PerSector, Entries, SectAt, Clusters, Slots, Clust2Sect, SectorOf,
         OffsetIn, Room, Dir.Valid, Dir.Sects, SlotsOf;
    Successor(d, i);
    var j := SectorOf(PerSector(d.fs.g.ss), i);
    ChainSectAt(d, j);
    ChainSectAt(d, j + 1);
    RoomPlace(d.fs.g, d.chain, j);
  }

  lemma ChainSectAt(d: Dir, j: nat)
    requires !d.Static()
    ensures |d.Sects()| == Room(d.fs.g, d.chain)
    ensures j < |d.Sects()| ==> d.Sects()[j] == SectAt(d.fs.g, d.chain, j)
  {
    hide SectAt, Room;
  }

  // The first sector of cluster k of the chain.
  lemma FirstSector(d: Dir, i: nat, k: nat)
    requires d.Valid() && !d.Static() && k < |d.chain| && 0 < PerSector(d.fs.g.ss) && 0 < d.fs.g.csize
    requires OffsetIn(d.fs.g.csize, SectorOf(PerSector(d.fs.g.ss), i)) == 0
    requires SectorOf(d.fs.g.csize, SectorOf(PerSector(d.fs.g.ss), i)) == k
    ensures SectorOf(PerSector(d.fs.g.ss), i) < |d.Sects()|
    ensures d.Sects()[SectorOf(PerSector(d.fs.g.ss), i)] == Clust2Sect(d.fs.g, d.chain[k])
  {
    hide Dir.Valid, PerSector, SectorOf, OffsetIn, Clust2Sect, SectAt;
    var j := SectorOf(PerSector(d.fs.g.ss), i);
    SlotBelow(d.fs.g.csize, j, |d.chain|);
    FirstOf(d.fs.g, d.chain, j);
  }

  // The sector behind sector j of a chain.
  lemma RoomPlace(g: Geometry, chain: seq<nat>, j: nat)
    requires 0 < g.csize && j < Room(g, chain)
    ensures SectorOf(g.csize, j) < |chain| && (j + 1 < Room(g, chain) <==> SectorOf(g.csize, j + 1) < |chain|)
    ensures OffsetIn(g.csize, j + 1) != 0 ==>
              SectorOf(g.csize, j + 1) == SectorOf(g.csize, j) && j + 1 < Room(g, chain)
                  && SectAt(g, chain, j + 1) == SectAt(g, chain, j) + 1
    ensures OffsetIn(g.csize, j + 1) == 0 ==> SectorOf(g.csize, j + 1) == SectorOf(g.csize, j) + 1
  {
    hide SectAt;
    SlotPlace(g.csize, j, |chain|);
    if OffsetIn(g.csize, j + 1) != 0 { SectNext(g, chain, j, 1); }
  }

  lemma FirstOf(g: Geometry, chain: seq<nat>, j: nat)
    requires 0 < g.csize && OffsetIn(g.csize, j) == 0 && SectorOf(g.csize, j) < |chain|
    ensures SectAt(g, chain, j) == Clust2Sect(g, chain[SectorOf(g.csize, j)])
  {
  }

  // Standing where Successor says.
  lemma Arrive(d: Dir, i: nat)
    requires d.Valid() && 0 < PerSector(d.fs.g.ss) && 0 < d.fs.g.csize && i < 0x1_0000 && d.index == i
    requires d.off == OffsetIn(PerSector(d.fs.g.ss), i) * SZ_DIRE && SectorOf(PerSector(d.fs.g.ss), i) < |d.Sects()|
    requires d.sect == d.Sects()[SectorOf(PerSector(d.fs.g.ss), i)]
    requires if d.Static() then d.clust == 0
             else var k := SectorOf(d.fs.g.csize, SectorOf(PerSector(d.fs.g.ss), i));
             k < |d.chain| && d.clust == d.chain[k]
    ensures d.At(i)
  {
    hide Dir.Valid, PerSector, SectorOf, OffsetIn;
    SlotBelow(PerSector(d.fs.g.ss), i, |d.Sects()|);
  }

  // A call of dir_next: what it keeps in any case.
  twostate predicate Stepped(d: Dir)
    requires old(d.fs.Valid()) && d.fs.Valid()
    reads d, d.fs`disk, d.fs`wflag, d.fs`winsect, d.fs.win
  {
    && old(d.chain) <= d.chain && MoreSlots(old(SlotsOf(d)), SlotsOf(d)) && d.others == old(d.others)
    && OnlyTable(d.fs.g, d.Sects(), old(d.fs.Synced()), d.fs.Synced())
  }

  // Reaching the next cluster of the chain, or stretching it.
  method NextCluster(d: Dir, stretch: bool, ghost k: nat) returns (res: DirResult, clst: nat)
    requires d.Valid() && !d.Static() && k < |d.chain| && d.clust == d.chain[k]
    modifies d`chain, d.fs`disk, d.fs`wflag, d.fs`winsect, d.fs`lastClust, d.fs`freeClust, d.fs`fsiDirty, d.fs.win
    ensures d.Valid() && old(d.chain) <= d.chain && MoreSlots(old(SlotsOf(d)), SlotsOf(d))
    ensures OnlyTable(d.fs.g, d.Sects(), old(d.fs.Synced()), d.fs.Synced())
    ensures res == DirOk ==> k + 1 < |d.chain| && clst == d.chain[k + 1]
    ensures k + 1 < |old(d.chain)| || !stretch ==> d.chain == old(d.chain) && d.fs.Synced() == old(d.fs.Synced())
    ensures k + 1 < |old(d.chain)| ==> res == DirOk
    ensures k + 1 == |old(d.chain)| && !stretch ==> res == DirNoFile
    ensures k + 1 == |old(d.chain)| && stretch ==>
              if res == DirOk then |d.chain| == |old(d.chain)| + 1
              else res == DirDenied && d.chain == old(d.chain) && NoFree(Entries(d.fs)) && SlotsOf(d) == old(SlotsOf(d))
    ensures old(CountRight(d.fs)) ==> CountRight(d.fs)
  {
    hide Geometry.Valid, FatFs.Valid, FatFs.Synced, Forest, Fat, SectAt, Clust2Sect, Slots, PerSector, Room, Dir.Sects;
    ChainEntry(Entries(d.fs), d.chain, d.others, k);
    SameTable(SlotsOf(d));
    clst := GetFat(d.fs, d.clust);
    if clst <= 1 {
      return DirIntErr, clst;
    }
    if clst >= d.fs.g.nFatent {
      if !stretch {
        return DirNoFile, clst;
      }
      clst := Extend(d, d.clust);
      if clst == 0 {
        return DirDenied, clst;
      }
    }
    res := DirOk;
  }

  // dir_next: the object at the following slot, of a table stretched if need be.
  method DirNext(d: Dir, stretch: bool) returns (res: DirResult)
    requires d.Valid() && d.At(d.index)
    modifies d`index, d`clust, d`sect, d`off, d`chain
    modifies d.fs`disk, d.fs`wflag, d.fs`winsect, d.fs`lastClust, d.fs`freeClust, d.fs`fsiDirty, d.fs.win
    ensures d.Valid() && Stepped(d)
    ensures res == DirOk ==> d.At(old(d.index) + 1)
    ensures var i := old(d.index) + 1;
            var inside := i < |old(SlotsOf(d))| && i < 0x1_0000;
            && (inside || !stretch
               ==> d.chain == old(d.chain) && d.fs.Synced() == old(d.fs.Synced()) && SlotsOf(d) == old(SlotsOf(d)))
            && (inside ==> res == DirOk)
            && (!inside && (!stretch || i == 0x1_0000 || d.Static()) ==> res == DirNoFile)
            && (res == DirOk || res == DirNoFile || (res == DirDenied && NoFree(Entries(d.fs))))
            && (stretch && res == DirNoFile ==> d.Static() || i == 0x1_0000)
            && (res != DirOk ==> d.chain == old(d.chain) && SlotsOf(d) == old(SlotsOf(d)))
    ensures old(CountRight(d.fs)) ==> CountRight(d.fs)
  {
    hide Geometry.Valid, FatFs.Valid, FatFs.Synced, Forest, Fat, SectAt, Clust2Sect, Slots, PerSector, Room,
         Dir.Sects, Entries, SectorOf, OffsetIn;
    var n := PerSector(d.fs.g.ss);
    var i := d.index + 1;
    Successor(d, d.index);
    SameTable(SlotsOf(d));
    if i % 0x1_0000 == 0 || d.sect == 0 {
      return DirNoFile;
    }
    if OffsetIn(n, i) == 0 {
      ghost var sect0 := d.sect;
      if d.clust != 0 { NextInChain(d, d.index); }
      d.sect := d.sect + 1;
      if d.clust == 0 {
        if i >= d.nRoot {
          return DirNoFile;
        }
      } else if OffsetIn(d.fs.g.csize, SectorOf(n, i)) == 0 {
        var clst;
        res, clst := NextCluster(d, stretch, SectorOf(d.fs.g.csize, SectorOf(n, d.index)));
        if res != DirOk {
          return;
        }
        FirstSector(d, i, SectorOf(d.fs.g.csize, SectorOf(n, d.index)) + 1);
        d.clust := clst;
        d.sect := Clust2Sect(d.fs.g, clst);
      }
    }
    d.index := i;
    d.off := OffsetIn(n, i) * SZ_DIRE;
    Arrive(d, i);
    res := DirOk;
  }

  // ---- dir_alloc ----

  // A slot never used, or that of a deleted entry.
  ghost predicate IsFree(slot: seq<byte>) {
    slot != [] && (slot[0] == 0 || slot[0] == 0xE5)
  }

  // The `nent` slots up to `last` are free.
  ghost predicate FreeRun(t: seq<seq<byte>>, last: nat, nent: nat) {
    nent <= last + 1 && last < |t| && forall k :: last + 1 - nent <= k <= last ==> IsFree(t[k])
  }

  // The first run ends no earlier than slot i.
  ghost predicate NoRunBefore(t: seq<seq<byte>>, i: nat, nent: nat) {
    forall e: nat :: e < i ==> !FreeRun(t, e, nent)
  }

  // The search before slot i: n free slots just behind it, no more, and no run so far.
  ghost predicate Searching(t: seq<seq<byte>>, i: nat, n: nat, nent: nat) {
    && n <= i <= |t| && n < nent && NoRunBefore(t, i, nent)
    && (forall k :: i - n <= k < i ==> IsFree(t[k])) && (n < i ==> !IsFree(t[i - n - 1]))
  }

  lemma SearchOn(t: seq<seq<byte>>, i: nat, n: nat, nent: nat)
    requires Searching(t, i, n, nent) && i < |t|
    ensures n < nent
    ensures !IsFree(t[i]) ==> Searching(t, i + 1, 0, nent)
    ensures IsFree(t[i]) && n + 1 < nent ==> Searching(t, i + 1, n + 1, nent)
    ensures IsFree(t[i]) && n + 1 == nent ==> FreeRun(t, i, nent) && NoRunBefore(t, i, nent)
  {
  }

  lemma SearchMore(t: seq<seq<byte>>, u: seq<seq<byte>>, i: nat, n: nat, nent: nat)
    requires Searching(t, i, n, nent) && t <= u
    ensures Searching(u, i, n, nent)
  {
    forall e: nat | e < i ensures !FreeRun(u, e, nent) {
      if FreeRun(u, e, nent) {
        assert forall k :: e + 1 - nent <= k <= e ==> t[k] == u[k];
        assert FreeRun(t, e, nent);
      }
    }
  }

  // The table has grown from one state to another, and nothing beside it changed.
  ghost predicate Progress(g: Geometry, t0: seq<seq<byte>>, disk0: seq<Sector>, t: seq<seq<byte>>, sects: seq<nat>,
                           disk: seq<Sector>) {
    MoreSlots(t0, t) && OnlyTable(g, sects, disk0, disk)
  }

  lemma ProgressOn(g: Geometry, t0: seq<seq<byte>>, disk0: seq<Sector>, t1: seq<seq<byte>>, sects1: seq<nat>,
                   disk1: seq<Sector>,
                   t2: seq<seq<byte>>, sects2: seq<nat>, disk2: seq<Sector>)
    requires Progress(g, t0, disk0, t1, sects1, disk1) && MoreSlots(t1, t2) && OnlyTable(g, sects2, disk1, disk2)
    requires sects1 <= sects2
    ensures Progress(g, t0, disk0, t2, sects2, disk2)
  {
    hide Zeros;
    forall k | |t0| <= k < |t2| ensures |t2[k]| == SZ_DIRE && Zeros(t2[k]) {
      if k < |t1| { assert t2[k] == t1[k]; }
    }
    assert forall s :: s !in sects2 ==> s !in sects1;
  }

  lemma NoProgress(g: Geometry, t: seq<seq<byte>>, sects: seq<nat>, disk: seq<Sector>)
    ensures Progress(g, t, disk, t, sects, disk)
  {
  }

  lemma SectsGrow(g: Geometry, chain: seq<nat>, longer: seq<nat>)
    requires chain <= longer
    ensures ChainSects(g, chain) <= ChainSects(g, longer)
  {
    hide SectAt, Room;
    RoomPrefix(g, chain, longer);
    forall j: nat | j < Room(g, chain) ensures ChainSects(g, longer)[j] == ChainSects(g, chain)[j] {
      SectPrefix(g, chain, longer, j);
    }
  }

  // The slot the object stands at, in the window.
  lemma SlotShown(d: Dir)
    requires d.Valid() && d.At(d.index) && d.sect < |d.fs.Synced()| && d.fs.g.ss <= d.fs.win.Length
    requires d.fs.winsect == d.sect && d.fs.win[..d.fs.g.ss] == d.fs.Synced()[d.sect]
    ensures d.off + SZ_DIRE <= d.fs.g.ss <= d.fs.win.Length && d.index < |SlotsOf(d)|
    ensures d.fs.win[d.off..d.off + SZ_DIRE] == SlotsOf(d)[d.index]
  {
    hide Geometry.Valid, FatFs.Valid, FatFs.Synced, Forest, PerSector, Dir.Sects, SectorOf, OffsetIn, Dir.Valid,
         Slots, SlotsOf;
    Successor(d, d.index);
    TableSlot(d, d.index);
    var w := d.fs.win[..d.fs.g.ss];
    assert d.fs.win[d.off..d.off + SZ_DIRE] == w[d.off..d.off + SZ_DIRE];
  }

  // A slot of the table as octets of the drive.
  lemma TableSlot(d: Dir, k: nat)
    requires d.Valid() && k < |SlotsOf(d)|
    ensures 0 < PerSector(d.fs.g.ss) && |d.fs.Synced()| == |d.fs.disk| && d.fs.g.ss <= d.fs.win.Length
    ensures var j, o := SectorOf(PerSector(d.fs.g.ss), k), OffsetIn(PerSector(d.fs.g.ss), k) * SZ_DIRE;
            && j < |d.Sects()| && d.Sects()[j] < |d.fs.disk|
            && o + SZ_DIRE <= d.fs.g.ss == |d.fs.Synced()[d.Sects()[j]]|
            && SlotsOf(d)[k] == d.fs.Synced()[d.Sects()[j]][o..o + SZ_DIRE]
  {
    hide Geometry.Valid, Forest, PerSector, Dir.Sects, SectorOf, OffsetIn, Slots, Entries;
    Start(d);
    SectsGood(d);
    SyncedSizes(d.fs);
    SlotRead(d.fs.g.ss, d.fs.Synced(), d.Sects(), k);
  }

  lemma SyncedSizes(fs: FatFs)
    requires fs.Valid()
    ensures |fs.Synced()| == |fs.disk| && fs.win.Length == 4096 && fs.g.ss <= 4096
    ensures forall s :: 0 <= s < |fs.disk| ==> |fs.Synced()[s]| == fs.g.ss
  {
  }

  lemma SlotRead(ss: nat, disk: seq<Sector>, sects: seq<nat>, k: nat)
    requires 0 < PerSector(ss) && PerSector(ss) * SZ_DIRE == ss && k < |sects| * PerSector(ss)
    ensures var n := PerSector(ss);
            SectorOf(n, k) < |sects| && OffsetIn(n, k) * SZ_DIRE + SZ_DIRE <= ss
    ensures var s, o := sects[SectorOf(PerSector(ss), k)], OffsetIn(PerSector(ss), k) * SZ_DIRE;
            s < |disk| && |disk[s]| == ss ==> Slots(ss, disk, sects)[k] == disk[s][o..o + SZ_DIRE]
  {
    hide PerSector, SectorOf, OffsetIn;
    var n := PerSector(ss);
    SlotPlace(n, k, |sects|);
    SlotFits(OffsetIn(n, k), n);
  }

  lemma SlotFits(m: nat, n: nat)
    requires m < n
    ensures (m + 1) * SZ_DIRE <= n * SZ_DIRE && m * SZ_DIRE + SZ_DIRE == (m + 1) * SZ_DIRE
  {
  }

  // move_window to the sector of the current slot.
  method Show(d: Dir)
    requires d.Valid() && d.At(d.index)
    modifies d.fs`disk, d.fs`wflag, d.fs`winsect, d.fs.win
    ensures d.Valid() && d.At(d.index) && d.fs.Synced() == old(d.fs.Synced()) && SlotsOf(d) == old(SlotsOf(d))
    ensures d.fs.winsect == d.sect < |d.fs.disk| && d.fs.win[..d.fs.g.ss] == d.fs.Synced()[d.sect]
    ensures d.off + SZ_DIRE <= d.fs.g.ss <= d.fs.win.Length && d.index < |SlotsOf(d)|
    ensures d.fs.win[d.off..d.off + SZ_DIRE] == SlotsOf(d)[d.index]
  {
    hide Geometry.Valid, FatFs.Valid, FatFs.Synced, Forest, Fat, PerSector, Dir.Sects, SectorOf, OffsetIn;
    SectsGood(d);
    MoveWindow(d.fs, d.sect);
    SyncedSizes(d.fs);
    SlotShown(d);
  }

  // One slot looked at: the number of free ones up to it.
  method TrySlot(d: Dir, n0: nat) returns (n: nat)
    requires d.Valid() && d.At(d.index)
    modifies d.fs`disk, d.fs`wflag, d.fs`winsect, d.fs.win
    ensures d.Valid() && d.At(d.index) && d.fs.Synced() == old(d.fs.Synced()) && SlotsOf(d) == old(SlotsOf(d))
    ensures d.index < |SlotsOf(d)| && n == if IsFree(SlotsOf(d)[d.index]) then n0 + 1 else 0
  {
    hide Dir.Valid, Dir.At, SlotsOf, IsFree, FatFs.Synced;
    Show(d);
    FirstOctet(d.fs.win[d.off..d.off + SZ_DIRE], d.fs.win[d.off]);
    n := if d.fs.win[d.off] == DDEM || d.fs.win[d.off] == 0 then n0 + 1 else 0;
  }

  // To the next slot in the search.
  method Onward(d: Dir, ghost n: nat, ghost nent: nat, ghost t0: seq<seq<byte>>, ghost disk0: seq<Sector>)
    returns (res: DirResult)
    requires d.Valid() && d.At(d.index) && Searching(SlotsOf(d), d.index + 1, n, nent)
    requires Progress(d.fs.g, t0, disk0, SlotsOf(d), d.Sects(), d.fs.Synced())
    modifies d`index, d`clust, d`sect, d`off, d`chain
    modifies d.fs`disk, d.fs`wflag, d.fs`winsect, d.fs`lastClust, d.fs`freeClust, d.fs`fsiDirty, d.fs.win
    ensures d.Valid() && old(d.chain) <= d.chain && Progress(d.fs.g, t0, disk0, SlotsOf(d), d.Sects(), d.fs.Synced())
    ensures res == DirOk
            ==> d.At(d.index) && old(d.index) + 1 == d.index < 0x1_0000 && Searching(SlotsOf(d), d.index, n, nent)
    ensures res != DirOk ==> (|SlotsOf(d)| >= 0x1_0000 || d.Static() || NoFree(Entries(d.fs)))
                             && NoRunBefore(SlotsOf(d),
                                            if |SlotsOf(d)| < 0x1_0000 then |SlotsOf(d)| else 0x1_0000, nent)
    ensures old(CountRight(d.fs)) ==> CountRight(d.fs)
  {
    hide Geometry.Valid, FatFs.Valid, FatFs.Synced, Forest, Fat, PerSector, Dir.Sects, SectorOf, OffsetIn, Dir.At,
         SlotsOf, Searching, IsFree, FreeRun, NoRunBefore, MoreSlots, OnlyTable, Progress, NoFree, Entries,
         CountRight;
    ghost var t, i := SlotsOf(d), d.index + 1;
    ghost var sects, disk, chain := d.Sects(), d.fs.Synced(), d.chain;
    OldSects(d);
    res := DirNext(d, true);
    TableMore(d, chain, sects);
    ProgressOn(d.fs.g, t0, disk0, t, sects, disk, SlotsOf(d), d.Sects(), d.fs.Synced());
    if res == DirOk {
      AtIndex(d, i);
      MoreMeans(t, SlotsOf(d));
      SearchMore(t, SlotsOf(d), i, n, nent);
    } else {
      NothingLeft(t, i, n, nent);
    }
  }

  lemma MoreMeans(t: seq<seq<byte>>, u: seq<seq<byte>>)
    requires MoreSlots(t, u)
    ensures t <= u
  {
  }

  lemma OldSects(d: Dir)
    ensures d.Static() || d.Sects() == ChainSects(d.fs.g, d.chain)
  {
  }

  // dir_alloc: the object at the last slot of the first run of `nent` free slots, of a
  // table stretched if it has none.
  method DirAlloc(d: Dir, nent: nat) returns (res: DirResult)
    requires d.Valid() && nent > 0
    modifies d`index, d`clust, d`sect, d`off, d`chain
    modifies d.fs`disk, d.fs`wflag, d.fs`winsect, d.fs`lastClust, d.fs`freeClust, d.fs`fsiDirty, d.fs.win
    ensures d.Valid() && old(d.chain) <= d.chain
    ensures Progress(d.fs.g, old(SlotsOf(d)), old(d.fs.Synced()), SlotsOf(d), d.Sects(), d.fs.Synced())
    ensures res == DirOk
            ==> d.At(d.index) && FreeRun(SlotsOf(d), d.index, nent) && NoRunBefore(SlotsOf(d), d.index, nent)
    ensures res == DirIntErr <==> old(SlotsOf(d)) == []
    ensures res == DirOk || res == DirIntErr || res == DirDenied
    ensures res == DirDenied ==> (|SlotsOf(d)| >= 0x1_0000 || d.Static() || NoFree(Entries(d.fs)))
                                 && NoRunBefore(SlotsOf(d),
                                                if |SlotsOf(d)| < 0x1_0000 then |SlotsOf(d)| else 0x1_0000, nent)
    ensures old(CountRight(d.fs)) ==> CountRight(d.fs)
  {
    hide Geometry.Valid, FatFs.Valid, FatFs.Synced, Forest, Fat, PerSector, Dir.Sects, SectorOf, OffsetIn, Dir.At,
         SlotsOf, Searching, IsFree, FreeRun, NoRunBefore, MoreSlots, OnlyTable, Progress, NoFree, Free;
    ghost var t0, disk0 := SlotsOf(d), d.fs.Synced();
    res := DirSdi(d, 0);
    NoProgress(d.fs.g, t0, d.Sects(), disk0);
    if res != DirOk {
      return;
    }
    AtIndex(d, 0);
    var n := 0;
    NoneYet(t0, nent);
    while true
      invariant d.Valid() && d.At(d.index) && res == DirOk && t0 != [] && old(d.chain) <= d.chain
      invariant Searching(SlotsOf(d), d.index, n, nent) && d.index < 0x1_0000
      invariant Progress(d.fs.g, t0, disk0, SlotsOf(d), d.Sects(), d.fs.Synced())
      invariant old(CountRight(d.fs)) ==> CountRight(d.fs)
      decreases 0x1_0000 - d.index
    {
      ghost var n0 := n;
      n := TrySlot(d, n);
      SearchOn(SlotsOf(d), d.index, n0, nent);
      if n == nent {
        return;
      }
      res := Onward(d, n, nent, t0, disk0);
      if res != DirOk {
        return DirDenied;
      }
    }
  }

  lemma FirstOctet(slot: seq<byte>, b: byte)
    requires |slot| == SZ_DIRE && slot[0] == b
    ensures IsFree(slot) <==> b == DDEM || b == 0
  {
  }

  lemma NoneYet(t: seq<seq<byte>>, nent: nat)
    requires nent > 0
    ensures Searching(t, 0, 0, nent)
  {
  }

  lemma AtIndex(d: Dir, i: nat)
    requires d.At(i)
    ensures d.index == i < 0x1_0000
  {
  }

  lemma TableMore(d: Dir, chain: seq<nat>, sects: seq<nat>)
    requires d.Valid() && chain <= d.chain
    requires sects == if d.Static() then d.Sects() else ChainSects(d.fs.g, chain)
    ensures sects <= d.Sects()
  {
    SectsGrow(d.fs.g, chain, d.chain);
  }

  lemma NothingLeft(t: seq<seq<byte>>, i: nat, n: nat, nent: nat)
    requires Searching(t, i, n, nent)
    ensures i <= |t|
    ensures forall j: nat :: j <= i ==> NoRunBefore(t, j, nent)
  {
  }

  // ---- Changing a slot ----

  lemma WindowStored(g: Geometry, disk: seq<Sector>, flag: bool, s: nat, was: Sector, now: Sector)
    requires s < |disk| && !g.InFat(s) && (!flag ==> disk[s] == was)
    ensures WriteBack(g, disk, s, now) == (if flag then WriteBack(g, disk, s, was) else disk)[s := now]
  {
  }

  lemma SlotsUpdate(g: Geometry, disk: seq<Sector>, sects: seq<nat>, k: nat, now: Sector)
    requires 0 < PerSector(g.ss) && PerSector(g.ss) * SZ_DIRE == g.ss && k < |sects| * PerSector(g.ss)
    requires GoodSects(g, |disk|, sects) && SectorOf(PerSector(g.ss), k) < |sects| && |now| == g.ss
    requires var s, o := sects[SectorOf(PerSector(g.ss), k)], OffsetIn(PerSector(g.ss), k) * SZ_DIRE;
             s < |disk| && |disk[s]| == g.ss && o + SZ_DIRE <= g.ss
             && forall i :: 0 <= i < g.ss && !(o <= i < o + SZ_DIRE) ==> now[i] == disk[s][i]
    ensures var s, o := sects[SectorOf(PerSector(g.ss), k)], OffsetIn(PerSector(g.ss), k) * SZ_DIRE;
            Slots(g.ss, disk[s := now], sects) == Slots(g.ss, disk, sects)[k := now[o..o + SZ_DIRE]]
  {
    hide PerSector, SectorOf, OffsetIn, SlotOf;
    var n := PerSector(g.ss);
    var s, o := sects[SectorOf(n, k)], OffsetIn(n, k) * SZ_DIRE;
    var a, b := Slots(g.ss, disk, sects), Slots(g.ss, disk[s := now], sects);
    SlotPlace(n, k, |sects|);
    SlotFits(OffsetIn(n, k), n);
    forall e: nat | e < |a| ensures b[e] == if e == k then now[o..o + SZ_DIRE] else a[e] {
      SlotPlace(n, e, |sects|);
      SlotFits(OffsetIn(n, e), n);
      if SectorOf(n, e) == SectorOf(n, k) {
        OneSlot(disk[s], now, OffsetIn(n, k), OffsetIn(n, e));
      }
    }
  }

  // Another slot of the sector stays.
  lemma OneSlot(was: Sector, now: Sector, m: nat, e: nat)
    requires |was| == |now| && (e + 1) * SZ_DIRE <= |now| && (m + 1) * SZ_DIRE <= |now|
    requires forall i :: 0 <= i < |now| && !(m * SZ_DIRE <= i < m * SZ_DIRE + SZ_DIRE) ==> now[i] == was[i]
    ensures SlotOf(now, m) == now[m * SZ_DIRE..m * SZ_DIRE + SZ_DIRE]
    ensures e != m ==> SlotOf(now, e) == SlotOf(was, e)
  {
  }

  // Whatever has been written to the slot shown, once the window is marked dirty: that
  // slot of the table has changed, and nothing else.
  lemma SlotStored(d: Dir, disk0: seq<Sector>, flag: bool, was: Sector)
    requires ValidDisk(d.fs.g, disk0) && ValidDisk(d.fs.g, d.fs.disk) && |disk0| == |d.fs.disk|
    requires d.fs.win.Length == 4096
    requires Forest(Fat(d.fs.g, disk0), All(d.chain, d.others)) && d.chain !in d.others && d.Placed() && d.At(d.index)
    requires d.sect < |disk0| && GoodSects(d.fs.g, |disk0|, d.Sects()) && 0 < d.fs.g.ss <= 4096
    requires PerSector(d.fs.g.ss) * SZ_DIRE == d.fs.g.ss
    requires d.fs.wflag && d.fs.winsect == d.sect && (!flag ==> d.fs.disk[d.sect] == was) && |was| == d.fs.g.ss
    requires !d.fs.g.InFat(d.sect)
    requires disk0 == if flag then WriteBack(d.fs.g, d.fs.disk, d.sect, was) else d.fs.disk
    requires d.off + SZ_DIRE <= d.fs.g.ss
    requires forall i :: 0 <= i < d.fs.g.ss && !(d.off <= i < d.off + SZ_DIRE) ==> d.fs.win[i] == was[i]
    ensures d.Valid() && d.fs.Synced() == disk0[d.sect := d.fs.win[..d.fs.g.ss]]
    ensures d.index < |Slots(d.fs.g.ss, disk0, d.Sects())|
    ensures SlotsOf(d) == Slots(d.fs.g.ss, disk0, d.Sects())[d.index := d.fs.win[d.off..d.off + SZ_DIRE]]
    ensures OnlyTable(d.fs.g, d.Sects(), disk0, d.fs.Synced()) && Entries(d.fs) == Fat(d.fs.g, disk0)
  {
    hide Geometry.Valid, Forest, Fat, PerSector, SectorOf, OffsetIn, Slots, Dir.Placed, Dir.Sects;
    var g, now := d.fs.g, d.fs.win[..d.fs.g.ss];
    assert d.sect == d.Sects()[SectorOf(PerSector(g.ss), d.index)];
    assert !g.InFatArea(d.sect);
    assert !g.InFat(d.sect);
    WindowStored(g, d.fs.disk, flag, d.sect, was, now);
    assert d.fs.Valid();
    assert d.fs.Synced() == disk0[d.sect := now];
    assert disk0[d.sect] == was;
    SlotsUpdate(g, disk0, d.Sects(), d.index, now);
    SameFatArea(g, disk0, d.fs.Synced());
    assert now[d.off..d.off + SZ_DIRE] == d.fs.win[d.off..d.off + SZ_DIRE];
  }

  // ---- On the drive ----

  // Octet p of sector s outside the FAT area: in the window if that shows the sector and is
  // dirty, else on the drive.
  ghost function SeenOctet(fs: FatFs, s: int, p: int): int
    reads fs`disk, fs`wflag, fs`winsect, fs.win
  {
    if fs.wflag && fs.winsect == s then (if 0 <= p < fs.win.Length then fs.win[p] else -1)
    else if 0 <= s < |fs.disk| && 0 <= p < |fs.disk[s]| then fs.disk[s][p] else -1
  }

  lemma Seen(fs: FatFs, s: nat, p: nat)
    requires fs.Valid() && s < |fs.disk| && !fs.g.InFatArea(s) && p < fs.g.ss
    ensures |fs.Synced()[s]| == fs.g.ss && fs.Synced()[s][p] == SeenOctet(fs, s, p)
  {
    FatAreaBelow(fs.g, |fs.disk|);
  }

  // Sector j of a table: of the static root directory the j-th, of a chain sector j % csize of
  // cluster j / csize, cluster c beginning (c - 2) * csize sectors into the data area.
  ghost function TableSector(d: Dir, j: nat): int
    reads d`chain
  {
    var g := d.fs.g;
    if d.sclust == 0 && g.fsType != Fat32 then d.root + j
    else if 0 < g.csize && j / g.csize < |d.chain|
    then g.database + (d.chain[j / g.csize] - 2) * g.csize + j % g.csize
    else -1
  }

  // Octet i of a table, whose sectors have ss octets.
  ghost function TableOctet(d: Dir, i: nat): int
    reads d`chain, d.fs`disk, d.fs`wflag, d.fs`winsect, d.fs.win
  {
    if 0 < d.fs.g.ss then SeenOctet(d.fs, TableSector(d, i / d.fs.g.ss), i % d.fs.g.ss) else -1
  }

  // Octet o of slot k is octet 32 * k + o of the table.
  lemma SlotOnDrive(d: Dir, k: nat, o: nat)
    requires d.Valid() && k < |SlotsOf(d)| && o < 32
    ensures |SlotsOf(d)[k]| == 32 && SlotsOf(d)[k][o] == TableOctet(d, 32 * k + o)
  {
    hide Geometry.Valid, FatFs.Valid, FatFs.Synced, Forest, Slots, SlotsOf, SeenOctet, TableSector, GoodSects, Clusters,
         Dir.Sects, Entries, Dir.Valid, PerSector, SectorOf, OffsetIn;
    Start(d);
    TableSlot(d, k);
    var n := PerSector(d.fs.g.ss);
    var j := SectorOf(n, k);
    SlotOctet(n, k, o);
    SectorOnDrive(d, j);
    Seen(d.fs, d.Sects()[j], OffsetIn(n, k) * 32 + o);
  }

  lemma SlotOctet(n: nat, k: nat, o: nat)
    requires 0 < n && o < 32
    ensures (32 * k + o) / (n * 32) == SectorOf(n, k) && (32 * k + o) % (n * 32) == OffsetIn(n, k) * 32 + o
  {
    Aligned(k, n, 32, o);
  }

  lemma SectorOnDrive(d: Dir, j: nat)
    requires d.Valid() && j < |d.Sects()|
    ensures TableSector(d, j) == d.Sects()[j] && 0 < d.Sects()[j] < |d.fs.disk|
    ensures !d.fs.g.InFatArea(d.Sects()[j])
  {
    hide Geometry.Valid, FatFs.Valid, Forest, Entries;
    SectsGood(d);
    if !d.Static() { SectPlace(d.fs.g, d.chain, j); }
  }
}
