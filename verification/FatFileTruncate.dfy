// f_truncate: cutting the file at its pointer and freeing what is behind.
module FatFileTruncate {
  import opened Arith
  import opened FatVolume
  import opened FatEntries
  import opened FatChains
  import opened FatAlloc
  import opened FatSectors
  import opened FatFile
  import opened FatFileOps
  import opened FatFileSeek

  // Clusters the first p bytes need.
  ghost function Needed(g: Geometry, p: nat): nat {
    if p == 0 || ClusterBytes(g) == 0 then 0 else (p - 1) / ClusterBytes(g) + 1
  }

  lemma CutForest(fat: Table, chain: seq<nat>, others: set<seq<nat>>, n: nat, eoc: nat)
    requires Forest(fat, All(chain, others)) && chain !in others && n < |chain| && eoc >= |fat|
    ensures forall i :: 0 <= i < |chain| ==> InRange(fat, chain[i])
    ensures 0 < n ==> fat[chain[n - 1]] == chain[n]
    ensures
      var cut := if n == 0 then fat else fat[chain[n - 1] := eoc];
      && RemoveOk(cut, chain[n]) && Forest(Removed(cut, chain[n]), All(chain[..n], others)) && chain[..n] !in others
      && (forall i :: n <= i < |chain| ==> Removed(cut, chain[n])[chain[i]] == 0)
  {
    hide Chain;
    var all := All(chain, others);
    assert chain in all;
    ChainInside(fat, chain);
    assert forall i :: 0 <= i < |chain| ==> chain[i] in chain;
    if n == 0 {
      RemovedHead(fat, all, chain);
      assert all - {chain} == others;
      assert chain[..0] == [];
      EmptyIsNoChain(fat, all);
    } else {
      CutThenFree(fat, all, chain, n - 1, eoc);
      CutEntries(fat, chain, n - 1, eoc);
      assert all - {chain} + {chain[..n]} == All(chain[..n], others);
      forall i | n <= i < |chain|
        ensures chain[i] in chain[n - 1 + 1..]
      {
        assert chain[i] == chain[n - 1 + 1..][i - n];
      }
      assert chain[..n][0] == chain[0] && chain[0] in chain[..n];
      NotAmong(fat, all, chain, n);
    }
  }

  lemma NotAmong(fat: Table, chains: set<seq<nat>>, chain: seq<nat>, n: nat)
    requires Forest(fat, chains) && chain in chains && 0 < n < |chain|
    ensures chain[..n] !in chains
  {
    hide Chain;
    var keep := chain[..n];
    assert |keep| < |chain|;
    assert keep[0] in keep && keep[0] in chain;
  }

  lemma EmptyIsNoChain(fat: Table, chains: set<seq<nat>>)
    requires Forest(fat, chains)
    ensures [] !in chains
  {
    if [] in chains { ChainInside(fat, []); }
  }

  lemma TruncSecs(g: Geometry, before: seq<Sector>, after: seq<Sector>, chain: seq<nat>, n: nat, dirty: bool,
                  dsect: nat, buf: Sector)
    requires n <= |chain| && |after| == |before| && g.Valid(|before|) && Clusters(g, chain)
    requires forall s: nat :: g.database <= s < |before| ==> after[s] == if dirty && s == dsect then buf else before[s]
    ensures Room(g, chain[..n]) <= Room(g, chain)
    ensures Secs(g, after, chain[..n], false, dsect, buf)
            == Secs(g, before, chain, dirty, dsect, buf)[..Room(g, chain[..n])]
  {
    hide Geometry.Valid, Clusters, SectAt, Room;
    var keep := chain[..n];
    RoomPrefix(g, keep, chain);
    var a, b := Secs(g, after, keep, false, dsect, buf), Secs(g, before, chain, dirty, dsect, buf);
    forall j: nat | j < Room(g, keep)
      ensures a[j] == b[j]
    {
      SectPrefix(g, keep, chain, j);
      SectInside(g, |before|, chain, j);
      assert a[j] == FileSector(g, after, keep, false, dsect, buf, j);
      assert b[j] == FileSector(g, before, chain, dirty, dsect, buf, j);
    }
  }

  // The buffer still fits once the chain is shorter and nothing is dirty.
  lemma TruncBuffer(g: Geometry, before: seq<Sector>, after: seq<Sector>, w0: nat, w1: nat, chain: seq<nat>, n: nat,
                    dirty: bool, dsect: nat, buf: Sector)
    requires n <= |chain| && |after| == |before| && g.Valid(|before|) && Clusters(g, chain)
    requires forall s: nat :: g.database <= s < |before| ==> after[s] == if dirty && s == dsect then buf else before[s]
    requires BufferOk(g, before, w0, chain, dirty, dsect, buf)
    requires w1 == w0 || g.InFat(w1)
    ensures BufferOk(g, after, w1, chain[..n], false, dsect, buf)
    ensures dirty ==> g.database <= dsect < |before| && dsect != w1
  {
    hide Geometry.Valid, Clusters, SectAt, Room;
    DataBehindFat(g, |before|, w1);
    if dirty { OwnedInside(g, |before|, chain, dsect); }
    if Owns(g, chain[..n], w1) {
      OwnsPrefix(g, chain[..n], chain, w1);
      OwnedInside(g, |before|, chain, w1);
    }
  }

  // The shorter chain holds the position.
  lemma TruncPosition(fp: Fil, p: nat, n: nat)
    requires fp.Core() && PositionAt(fp, p) && n == Needed(fp.fs.g, p)
    ensures n <= |fp.chain| && (p == 0 ==> n == 0)
    ensures p <= ClusterStart(fp.fs.g, n)
    ensures
      var g, keep, j, o := fp.fs.g, fp.chain[..n], SectorOf(fp.fs.g.ss, p), OffsetIn(fp.fs.g.ss, p);
      if o == 0 then j <= Room(g, keep) && (j > 0 ==> fp.clust == ClusterAt(g, keep, j - 1))
      else j < Room(g, keep) && fp.dsect == SectAt(g, keep, j) && fp.clust == ClusterAt(g, keep, j)
    ensures p > 0 ==> 0 < n && fp.clust == fp.chain[n - 1]
  {
    hide Geometry.Valid, Clust2Sect, SectorOf, OffsetIn, Room, Fil.Core, SectAt;
    var g, ss := fp.fs.g, fp.fs.g.ss;
    CSizePositive(fp);
    BytesPositive(fp);
    PlaceOf(ss, p);
    if p == 0 {
      Place(ss, 0, 0);
    } else {
      ClustOfPosition(fp, p);
      DivTwice(p - 1, ss, g.csize);
      ByteBefore(ss, p);
      var keep := fp.chain[..n];
      var j := SectorOf(ss, p);
      var q := if OffsetIn(ss, p) == 0 then j - 1 else j;
      Fundamental(q, g.csize);
      SectOfCluster(g, keep, n - 1, q % g.csize);
      assert q == (n - 1) * g.csize + q % g.csize;
      SectPrefix(g, keep, fp.chain, q);
      Fundamental(p - 1, ClusterBytes(g));
      StartStep(g, n - 1);
    }
  }

  // f_truncate: the file becomes its first fptr bytes, and the clusters behind them free.
  method FTruncate(fp: Fil) returns (res: FResult)
    requires Valid(fp)
    modifies fp.fs, fp.fs.win, fp, fp.buf
    ensures Valid(fp) && fp.others == old(fp.others) && fp.fptr == old(fp.fptr)
    ensures res == if fp.canWrite then FrOk else FrDenied
    ensures !fp.canWrite ==> Content(fp) == old(Content(fp))
    ensures !fp.canWrite || fp.fptr == old(fp.fsize)
            ==> fp.chain == old(fp.chain) && Entries(fp.fs) == old(Entries(fp.fs))
    ensures fp.written == (old(fp.written) || (fp.canWrite && fp.fptr < old(fp.fsize)))
    ensures fp.canWrite ==> Content(fp) == old(Content(fp))[..fp.fptr]
    ensures fp.canWrite && fp.fptr < old(fp.fsize) ==>
      var n := Needed(fp.fs.g, fp.fptr);
      && n <= |old(fp.chain)| && fp.chain == old(fp.chain)[..n]
      && forall i :: n <= i < |old(fp.chain)|
           ==> InRange(Entries(fp.fs), old(fp.chain)[i]) && Entries(fp.fs)[old(fp.chain)[i]] == 0
    ensures OnlyMine(fp.fs.g, old(fp.chain), old(fp.fs.Synced()), fp.fs.Synced())
    ensures old(CountRight(fp.fs)) ==> CountRight(fp.fs)
  {
    hide Geometry.Valid, FatFs.Valid, FatFs.Synced, Fat, ValidDisk, FatStore, Forest, Chain, SectAt, Room, Entries,
         Owns, Secs, Clusters, BufferOk, OnlyMine, ClusterAt, SectorOf, OffsetIn, Part, Fil.View, Fil.Core, Flat,
         NoFree, PositionAt, FileBytes, ClusterStart, ClusterBytes, Needed;
    CoreValid(fp);
    Unchanged(fp);
    if !fp.canWrite { return FrDenied; }
    if fp.fsize > fp.fptr {
      ghost var f := FileBytes(fp);
      Cut(fp);
      fp.fsize := fp.fptr;
      fp.written := true;
      assert f[..old(fp.fsize)][..fp.fptr] == f[..fp.fptr];
    }
    res := FrOk;
  }

  lemma DataKept(g: Geometry, before: seq<Sector>, after: seq<Sector>)
    requires ValidDisk(g, before) && FatStore(g, before, after)
    ensures |after| == |before| && forall s: nat :: g.database <= s < |before| ==> after[s] == before[s]
  {
    forall s: nat | g.database <= s < |before|
      ensures after[s] == before[s]
    {
      DataBehindFat(g, |before|, s);
    }
  }

  lemma DirtyPlace(g: Geometry, sectors: nat, disk: seq<Sector>, w0: nat, w1: nat, chain: seq<nat>, dirty: bool,
                   dsect: nat, buf: Sector)
    requires g.Valid(sectors) && Clusters(g, chain) && BufferOk(g, disk, w0, chain, dirty, dsect, buf)
    requires w1 == w0 || g.InFat(w1)
    ensures dirty ==> g.database <= dsect < sectors && dsect != w1 && Owns(g, chain, dsect)
  {
    hide Geometry.Valid, Clusters, SectAt, Room;
    DataBehindFat(g, sectors, w1);
    if dirty { OwnedInside(g, sectors, chain, dsect); }
  }

  lemma TruncMine(g: Geometry, before: seq<Sector>, mid: seq<Sector>, after: seq<Sector>, chain: seq<nat>,
                  dirty: bool, dsect: nat)
    requires ValidDisk(g, before) && FatStore(g, before, mid) && |after| == |mid|
    requires dirty ==> Owns(g, chain, dsect)
    requires forall s: nat :: s < |mid| && !(dirty && s == dsect) ==> after[s] == mid[s]
    ensures OnlyMine(g, chain, before, after)
  {
  }

  // The FAT side of f_truncate: the chain is cut behind its n-th cluster, the rest freed.
  method FreeBehind(fp: Fil, ghost n: nat)
    requires fp.Core() && n <= |fp.chain|
    requires if fp.fptr == 0 then n == 0 && fp.chain != [] else 0 < n && fp.clust == fp.chain[n - 1]
    modifies fp.fs, fp.fs.win
    ensures fp.fs.Valid() && FatStore(fp.fs.g, old(fp.fs.Synced()), fp.fs.Synced())
    ensures fp.fs.winsect == old(fp.fs.winsect) || fp.fs.g.InFat(fp.fs.winsect)
    ensures Forest(Entries(fp.fs), All(fp.chain[..n], fp.others)) && fp.chain[..n] !in fp.others
    ensures forall i :: n <= i < |fp.chain| ==> InRange(Entries(fp.fs), fp.chain[i]) && Entries(fp.fs)[fp.chain[i]] == 0
    ensures old(CountRight(fp.fs)) ==> CountRight(fp.fs)
  {
    hide Geometry.Valid, FatFs.Valid, FatFs.Synced, Fat, ValidDisk, FatStore, Forest, Chain, SectAt, Room, Owns,
         Secs, Clusters, BufferOk, Removed, RemoveOk, Free;
    ghost var fat, before := Entries(fp.fs), fp.fs.Synced();
    CoreClusters(fp);
    Limits(fp.fs.g, |fp.fs.disk|);
    Small(fp.fs);
    Unmoved(fp.fs);
    if n < |fp.chain| { CutForest(fat, fp.chain, fp.others, n, Eoc(fp.fs.g.fsType)); }
    if fp.fptr == 0 {
      var ok := RemoveChain(fp.fs, fp.sclust);
    } else {
      ChainEntry(fat, fp.chain, fp.others, n - 1);
      CutBehind(fp.fs, fp.clust);
      if n == |fp.chain| { assert fp.chain[..n] == fp.chain; }
    }
  }

  lemma NonEmpty(fp: Fil)
    requires fp.Core() && 0 < |FileBytes(fp)|
    ensures fp.chain != []
  {
    BytesAreClusters(fp);
    EmptyStart(fp.fs.g);
  }

  // The dirty buffer goes to the sector it stands for, freed or not.
  method FlushCut(fp: Fil)
    requires fp.Shape() && (fp.dirty ==> fp.fs.g.database <= fp.dsect < |fp.fs.disk| && fp.dsect != fp.fs.winsect)
    modifies fp.fs`disk, fp`dirty
    ensures fp.Shape() && !fp.dirty && |fp.fs.Synced()| == |old(fp.fs.Synced())|
    ensures forall s: nat :: s < |fp.fs.Synced()| ==>
      fp.fs.Synced()[s] == if old(fp.dirty) && s == fp.dsect then fp.buf[..fp.fs.g.ss] else old(fp.fs.Synced())[s]
    ensures Entries(fp.fs) == old(Entries(fp.fs))
  {
    hide Geometry.Valid, FatFs.Valid, FatFs.Synced, Fat, ValidDisk, Entries, Part;
    if fp.dirty {
      var data := fp.buf[..fp.fs.g.ss];
      WholePart(fp.fs.g.ss, data);
      DiskWrite(fp.fs, fp.dsect, data, 1);
      fp.dirty := false;
    }
  }

  method Cut(fp: Fil)
    requires fp.Core() && PositionAt(fp, fp.fptr) && fp.fptr < fp.fsize <= |FileBytes(fp)|
    modifies fp.fs, fp.fs.win, fp`chain, fp`sclust, fp`dirty
    ensures fp.Core() && fp.fs.Valid() && PositionAt(fp, fp.fptr)
    ensures fp.fptr <= |FileBytes(fp)| <= |old(FileBytes(fp))| && FileBytes(fp) == old(FileBytes(fp))[..|FileBytes(fp)|]
    ensures
      var n := Needed(fp.fs.g, fp.fptr);
      && n <= |old(fp.chain)| && fp.chain == old(fp.chain)[..n]
      && forall i :: n <= i < |old(fp.chain)|
           ==> InRange(Entries(fp.fs), old(fp.chain)[i]) && Entries(fp.fs)[old(fp.chain)[i]] == 0
    ensures OnlyMine(fp.fs.g, old(fp.chain), old(fp.fs.Synced()), fp.fs.Synced())
    ensures old(CountRight(fp.fs)) ==> CountRight(fp.fs)
  {
    hide Geometry.Valid, FatFs.Valid, FatFs.Synced, Fat, ValidDisk, FatStore, Forest, Chain, SectAt, Room, Entries,
         Owns, Secs, Clusters, BufferOk, OnlyMine, ClusterAt, SectorOf, OffsetIn, Flat, ClusterStart, ClusterBytes,
         Needed, Free, Fil.Core, Fil.View, CountRight;
    ghost var n := Needed(fp.fs.g, fp.fptr);
    ghost var v0 := fp.View();
    Viewed(fp);
    TruncPosition(fp, fp.fptr, n);
    NonEmpty(fp);
    CutDrive(fp, n);
    CoreValid(fp);
    Viewed(fp);
    FlatPrefix(fp.fs.g.ss, fp.View(), v0);
    BytesAreClusters(fp);
  }

  method CutDrive(fp: Fil, ghost n: nat)
    requires fp.Core() && n <= |fp.chain|
    requires if fp.fptr == 0 then n == 0 && fp.chain != [] else 0 < n && fp.clust == fp.chain[n - 1]
    modifies fp.fs, fp.fs.win, fp`chain, fp`sclust, fp`dirty
    ensures fp.Core() && fp.chain == old(fp.chain)[..n]
    ensures |fp.View()| <= |old(fp.View())| && fp.View() == old(fp.View())[..|fp.View()|]
    ensures forall i :: n <= i < |old(fp.chain)|
              ==> InRange(Entries(fp.fs), old(fp.chain)[i]) && Entries(fp.fs)[old(fp.chain)[i]] == 0
    ensures OnlyMine(fp.fs.g, old(fp.chain), old(fp.fs.Synced()), fp.fs.Synced())
    ensures old(CountRight(fp.fs)) ==> CountRight(fp.fs)
  {
    hide Geometry.Valid, FatFs.Valid, FatFs.Synced, Fat, ValidDisk, FatStore, Forest, Chain, SectAt, Room, Entries,
         Owns, Secs, Clusters, BufferOk, OnlyMine, Part, Removed, RemoveOk, Free;
    var g, ss := fp.fs.g, fp.fs.g.ss;
    ghost var before, w0, chain := fp.fs.Synced(), fp.fs.winsect, fp.chain;
    ghost var data := fp.buf[..ss];
    CoreClusters(fp);
    FreeBehind(fp, n);
    ghost var mid := fp.fs.Synced();
    DataKept(g, before, mid);
    DirtyPlace(g, |before|, before, w0, fp.fs.winsect, chain, fp.dirty, fp.dsect, data);
    if fp.fptr == 0 { fp.sclust := 0; }
    ghost var dirty0 := fp.dirty;
    FlushCut(fp);
    fp.chain := fp.chain[..n];
    ghost var after := fp.fs.Synced();
    TruncSecs(g, before, after, chain, n, dirty0, fp.dsect, data);
    TruncBuffer(g, before, after, w0, fp.fs.winsect, chain, n, dirty0, fp.dsect, data);
    TruncMine(g, before, mid, after, chain, dirty0, fp.dsect);
  }
}
