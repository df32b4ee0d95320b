// f_lseek: moving the file pointer, stretching the file when it may.
module FatFileSeek {
  import opened Arith
  import opened FatVolume
  import opened FatEntries
  import opened FatChains
  import opened FatAlloc
  import opened FatSectors
  import opened FatFile
  import opened FatFileOps
  import opened FatFileRead

  // Bytes of a cluster.
  function ClusterBytes(g: Geometry): nat {
    g.csize * g.ss
  }

  // Cluster k of the file starts at this byte.
  function ClusterStart(g: Geometry, k: nat): nat {
    k * ClusterBytes(g)
  }

  lemma DivTwice(n: nat, ss: nat, c: nat)
    requires 0 < ss && 0 < c
    ensures 0 < c * ss && n / (c * ss) == n / ss / c
  {
    Fundamental(n, ss);
    Fundamental(n / ss, c);
    var q, m, o := n / ss / c, n / ss % c, n % ss;
    MulStep(m, c, ss);
    assert n == q * (c * ss) + (m * ss + o) by {
      assert (q * c + m) * ss == q * (c * ss) + m * ss;
    }
    DivModUnique(q, c * ss, m * ss + o);
  }

  // The sector of the byte before p.
  lemma ByteBefore(ss: nat, p: nat)
    requires 0 < ss && 0 < p
    ensures (p - 1) / ss == if OffsetIn(ss, p) == 0 then SectorOf(ss, p) - 1 else SectorOf(ss, p)
    ensures OffsetIn(ss, p) == 0 ==> 0 < SectorOf(ss, p)
  {
    PlaceOf(ss, p);
    var j, o := p / ss, p % ss;
    if o == 0 {
      ZeroPlace(ss, p);
      assert p - 1 == (j - 1) * ss + (ss - 1);
      DivModUnique(j - 1, ss, ss - 1);
    } else {
      DivModUnique(j, ss, o - 1);
    }
  }

  // Inside the file, clust is the cluster of the byte before the pointer.
  lemma ClustOfPosition(fp: Fil, p: nat)
    requires fp.Core() && PositionAt(fp, p) && 0 < p
    ensures 0 < ClusterBytes(fp.fs.g)
    ensures 0 <= (p - 1) / ClusterBytes(fp.fs.g) < |fp.chain|
    ensures fp.clust == fp.chain[(p - 1) / ClusterBytes(fp.fs.g)]
  {
    hide Geometry.Valid, Clust2Sect, SectAt, SectorOf, OffsetIn, Room, Fil.Core;
    var g, ss := fp.fs.g, fp.fs.g.ss;
    CSizePositive(fp);
    DivTwice(p - 1, ss, g.csize);
    ByteBefore(ss, p);
    var j := if OffsetIn(ss, p) == 0 then SectorOf(ss, p) - 1 else SectorOf(ss, p);
    SectPlace(g, fp.chain, j);
  }

  // The pointer ofs bytes into cluster k, on its far edge at most.
  lemma PlaceInCluster(g: Geometry, chain: seq<nat>, k: nat, ofs: nat)
    requires 0 < g.csize && 0 < g.ss && k < |chain| && 0 < ofs <= ClusterBytes(g)
    ensures
      var p := ClusterStart(g, k) + ofs;
      var j, o := SectorOf(g.ss, p), OffsetIn(g.ss, p);
      && o == OffsetIn(g.ss, ofs)
      && p <= Room(g, chain) * g.ss
      && (if o == 0 then 0 < j <= Room(g, chain) && ClusterAt(g, chain, j - 1) == chain[k]
          else j < Room(g, chain) && ClusterAt(g, chain, j) == chain[k]
               && SectAt(g, chain, j) == Clust2Sect(g, chain[k]) + SectorOf(g.ss, ofs))
  {
    var ss, c := g.ss, g.csize;
    Fundamental(ofs, ss);
    var m, o := ofs / ss, ofs % ss;
    var p := ClusterStart(g, k) + ofs;
    assert p == (k * c + m) * ss + o by {
      assert (k * c + m) * ss == k * (c * ss) + m * ss;
    }
    DivModUnique(k * c + m, ss, o);
    EdgeOfCluster(g, ofs);
    MulStep(k, |chain|, c);
    if o == 0 {
      DivModUnique(k, c, m - 1);
      assert k * c + m <= Room(g, chain);
      if k * c + m < Room(g, chain) { MulStep(k * c + m, Room(g, chain), ss); }
    } else {
      DivModUnique(k, c, m);
      SectOfCluster(g, chain, k, m);
      MulStep(k * c + m, Room(g, chain), ss);
    }
  }

  lemma EdgeOfCluster(g: Geometry, ofs: nat)
    requires 0 < g.ss && 0 < ofs <= ClusterBytes(g)
    ensures ofs % g.ss == 0 ==> 0 < ofs / g.ss <= g.csize
    ensures ofs % g.ss != 0 ==> 0 <= ofs / g.ss < g.csize
  {
    Fundamental(ofs, g.ss);
    if g.csize < ofs / g.ss { MulStep(g.csize, ofs / g.ss, g.ss); }
  }

  // The cluster-following loop: from ofs bytes on from the start of chain[k], cluster
  // by cluster, stretching the chain in write mode. Returns the last cluster's index
  // and the bytes left in it, a whole cluster when the volume got full.
  method WalkClusters(fp: Fil, first: nat, ofs0: nat, ghost k0: nat)
    returns (clst: nat, ofs: nat, ghost k: nat, ghost full: bool)
    requires fp.Core() && k0 < |fp.chain| && first == fp.chain[k0] == fp.clust && 0 < ofs0
    requires fp.fptr == ClusterStart(fp.fs.g, k0)
    requires !fp.canWrite ==> ClusterStart(fp.fs.g, k0) + ofs0 <= ClusterStart(fp.fs.g, |fp.chain|)
    modifies fp.fs, fp.fs.win, fp`chain, fp`sclust, fp`clust, fp`fptr
    ensures fp.Core() && old(fp.chain) <= fp.chain && old(fp.View()) <= fp.View()
    ensures OnlyMine(fp.fs.g, fp.chain, old(fp.fs.Synced()), fp.fs.Synced())
    ensures k < |fp.chain| && fp.clust == fp.chain[k] && fp.fptr == ClusterStart(fp.fs.g, k)
    ensures (full || clst == fp.clust)
    ensures 0 < ofs <= ClusterBytes(fp.fs.g)
    ensures !full ==> fp.fptr + ofs == ClusterStart(fp.fs.g, k0) + ofs0
    ensures full ==> fp.canWrite && NoFree(Entries(fp.fs)) && k + 1 == |fp.chain| && ofs == ClusterBytes(fp.fs.g)
                     && fp.fptr + ofs < ClusterStart(fp.fs.g, k0) + ofs0
    ensures old(CountRight(fp.fs)) ==> CountRight(fp.fs)
  {
    hide Geometry.Valid, FatFs.Valid, FatFs.Synced, Fat, ValidDisk, FatStore, Forest, Chain, SectAt, Room, Entries,
         Owns, Secs, Clusters, BufferOk, OnlyMine, ClusterAt, SectorOf, OffsetIn, Part, Fil.View, Fil.Core, Flat,
         NoFree, CountRight, ClusterStart, ClusterBytes;
    var g := fp.fs.g;
    var bcs := ClusterBytes(g);
    CoreValid(fp);
    Unchanged(fp);
    clst, ofs, k, full := first, ofs0, k0, false;
    BytesPositive(fp);
    while ofs > bcs
      invariant fp.Core() && fp.fs.Valid() && old(fp.chain) <= fp.chain && old(fp.View()) <= fp.View() && !full
      invariant OnlyMine(g, fp.chain, old(fp.fs.Synced()), fp.fs.Synced())
      invariant k < |fp.chain| && clst == fp.clust == fp.chain[k] && fp.fptr == ClusterStart(g, k)
      invariant 0 < ofs && fp.fptr + ofs == ClusterStart(g, k0) + ofs0
      invariant !fp.canWrite ==> fp.chain == old(fp.chain)
      invariant old(CountRight(fp.fs)) ==> CountRight(fp.fs)
      decreases ofs
    {
      ghost var c1, s1 := fp.chain, fp.fs.Synced();
      StartStep(g, k);
      ClusterNonZero(fp, k);
      if fp.canWrite {
        clst := Grow(fp, clst, k);
        CoreValid(fp);
        OnlyMineGrow(g, c1, fp.chain, old(fp.fs.Synced()), s1, fp.fs.Synced());
        if clst == 0 {
          ofs := bcs;
          full := true;
          break;
        }
      } else {
        StartBound(g, k, |fp.chain|);
        clst := FollowKeeping(fp, k);
      }
      fp.clust := clst;
      fp.fptr := fp.fptr + bcs;
      ofs := ofs - bcs;
      k := k + 1;
    }
  }

  // get_fat on the way, as create_chain's counterpart in read-only mode.
  method FollowKeeping(fp: Fil, ghost k: nat) returns (c: nat)
    requires fp.Core() && k + 1 < |fp.chain| && fp.clust == fp.chain[k]
    modifies fp.fs`disk, fp.fs`wflag, fp.fs`winsect, fp.fs.win
    ensures fp.Core() && fp.fs.Valid() && fp.View() == old(fp.View()) && fp.fs.Synced() == old(fp.fs.Synced())
    ensures c == fp.chain[k + 1]
    ensures old(CountRight(fp.fs)) ==> CountRight(fp.fs)
  {
    c := Follow(fp, k);
  }

  lemma BytesPositive(fp: Fil)
    requires fp.Core()
    ensures 0 < ClusterBytes(fp.fs.g)
  {
    CSizePositive(fp);
    MulStep(0, fp.fs.g.csize, fp.fs.g.ss);
  }

  lemma StartStep(g: Geometry, k: nat)
    ensures ClusterStart(g, k + 1) == ClusterStart(g, k) + ClusterBytes(g)
  {
  }

  lemma StartBound(g: Geometry, k: nat, n: nat)
    requires ClusterStart(g, k) + ClusterBytes(g) < ClusterStart(g, n)
    ensures k + 1 < n
  {
    StartStep(g, k);
    if n < k + 1 { MulStep(n, k + 1, ClusterBytes(g)); }
  }

  lemma ClusterNonZero(fp: Fil, k: nat)
    requires fp.Core() && k < |fp.chain|
    ensures fp.chain[k] != 0
  {
    ChainHead(fp);
  }

  // Where f_lseek starts following: the current cluster when the target lies in it
  // or behind it, else the first one, allocated when there is none and it may be.
  method SeekFrom(fp: Fil, ofs: nat, ifptr: nat) returns (clst: nat, left: nat, ghost k: nat)
    requires fp.Core() && PositionAt(fp, ifptr) && 0 < ofs
    modifies fp.fs, fp.fs.win, fp`chain, fp`sclust, fp`clust, fp`fptr
    ensures fp.Core() && old(fp.chain) <= fp.chain && old(fp.View()) <= fp.View()
    ensures OnlyMine(fp.fs.g, fp.chain, old(fp.fs.Synced()), fp.fs.Synced())
    ensures clst != 0 ==> k < |fp.chain| && clst == fp.clust == fp.chain[k] && fp.fptr == ClusterStart(fp.fs.g, k)
    ensures clst != 0 ==> 0 < left && ClusterStart(fp.fs.g, k) + left == ofs
    ensures clst == 0 ==> fp.chain == [] && fp.fptr == 0 && NoFree(Entries(fp.fs))
    ensures old(fp.chain) != [] ==> fp.chain == old(fp.chain)
    ensures old(CountRight(fp.fs)) ==> CountRight(fp.fs)
  {
    hide Geometry.Valid, FatFs.Valid, FatFs.Synced, Fat, ValidDisk, FatStore, Forest, Chain, SectAt, Room, Entries,
         Owns, Secs, Clusters, BufferOk, OnlyMine, ClusterAt, SectorOf, OffsetIn, Part, Fil.View, Fil.Core, Flat,
         NoFree, CountRight, PositionAt;
    var bcs := ClusterBytes(fp.fs.g);
    CoreValid(fp);
    Unchanged(fp);
    BytesPositive(fp);
    ChainHead(fp);
    if ifptr > 0 { ClustOfPosition(fp, ifptr); }
    if ifptr > 0 && (ofs - 1) / bcs >= (ifptr - 1) / bcs {
      k := (ifptr - 1) / bcs;
      fp.fptr := (ifptr - 1) / bcs * bcs;
      LeftInSeek(ofs, ifptr, bcs);
      left := ofs - fp.fptr;
      clst := fp.clust;
    } else {
      k, left := 0, ofs;
      fp.fptr := 0;
      clst := fp.sclust;
      if clst == 0 {
        clst := Grow(fp, 0, 0);
      }
      fp.clust := clst;
    }
  }

  lemma LeftInSeek(ofs: nat, ifptr: nat, bcs: nat)
    requires 0 < ofs && 0 < ifptr && 0 < bcs && (ofs - 1) / bcs >= (ifptr - 1) / bcs
    ensures (ifptr - 1) / bcs * bcs < ofs
  {
    Fundamental(ofs - 1, bcs);
    if (ifptr - 1) / bcs < (ofs - 1) / bcs { MulStep((ifptr - 1) / bcs, (ofs - 1) / bcs, bcs); }
  }

  // f_lseek: the pointer moves to the offset, clipped at the end of the file when it
  // cannot be stretched and at the room there is when the volume gets full. The
  // bytes the file had stay; no sector of another chain changes.
  method FLseek(fp: Fil, ofs: nat)
    requires Valid(fp) && ofs < 0x1_0000_0000
    modifies fp.fs, fp.fs.win, fp, fp.buf
    ensures Valid(fp) && fp.others == old(fp.others) && old(fp.chain) <= fp.chain
    ensures OnlyMine(fp.fs.g, fp.chain, old(fp.fs.Synced()), fp.fs.Synced())
    ensures fp.fsize == if fp.fptr > old(fp.fsize) then fp.fptr else old(fp.fsize)
    ensures old(Content(fp)) == Content(fp)[..old(fp.fsize)]
    ensures fp.written == (old(fp.written) || fp.fsize != old(fp.fsize))
    ensures !fp.canWrite ==> fp.fptr == if ofs > fp.fsize then fp.fsize else ofs
    ensures fp.canWrite && fp.fptr != ofs ==>
      fp.fptr < ofs && NoFree(Entries(fp.fs)) && fp.fptr == ClusterStart(fp.fs.g, |fp.chain|)
    ensures old(CountRight(fp.fs)) ==> CountRight(fp.fs)
  {
    hide Geometry.Valid, FatFs.Valid, FatFs.Synced, Fat, ValidDisk, FatStore, Forest, Chain, SectAt, Room, Entries,
         Owns, Secs, Clusters, BufferOk, OnlyMine, ClusterAt, SectorOf, OffsetIn, Part, Fil.View, Fil.Core, Flat,
         NoFree, PositionAt, FileBytes, ClusterStart, ClusterBytes;
    var target := ofs;
    if target > fp.fsize && !fp.canWrite { target := fp.fsize; }
    ghost var f := FileBytes(fp);
    CoreValid(fp);
    var nsect := SeekTo(fp, target);
    ghost var c1, s1 := fp.chain, fp.fs.Synced();
    Settle(fp, nsect);
    OnlyMineGrow(fp.fs.g, c1, fp.chain, old(fp.fs.Synced()), s1, fp.fs.Synced());
    if fp.fptr > fp.fsize {
      fp.fsize := fp.fptr;
      fp.written := true;
    }
    assert FileBytes(fp)[..fp.fsize][..old(fp.fsize)] == FileBytes(fp)[..old(fp.fsize)];
    assert FileBytes(fp)[..|f|][..old(fp.fsize)] == FileBytes(fp)[..old(fp.fsize)];
  }

  // What the position asks of clust; the sector the buffer has to hold is nsect.
  ghost predicate Aimed(fp: Fil, p: nat, nsect: nat)
    reads fp`chain, fp`clust
  {
    0 < fp.fs.g.ss &&
    var g, j, o := fp.fs.g, SectorOf(fp.fs.g.ss, p), OffsetIn(fp.fs.g.ss, p);
    if o == 0 then j <= Room(g, fp.chain) && (j > 0 ==> fp.clust == ClusterAt(g, fp.chain, j - 1))
    else j < Room(g, fp.chain) && nsect == SectAt(g, fp.chain, j) && fp.clust == ClusterAt(g, fp.chain, j)
  }

  method SeekTo(fp: Fil, target: nat) returns (nsect: nat)
    requires Valid(fp) && (!fp.canWrite ==> target <= fp.fsize)
    modifies fp.fs, fp.fs.win, fp`chain, fp`sclust, fp`clust, fp`fptr
    ensures fp.Core() && fp.fs.Valid() && old(fp.chain) <= fp.chain
    ensures OnlyMine(fp.fs.g, fp.chain, old(fp.fs.Synced()), fp.fs.Synced())
    ensures |old(FileBytes(fp))| <= |FileBytes(fp)| && old(FileBytes(fp)) == FileBytes(fp)[..|old(FileBytes(fp))|]
    ensures Aimed(fp, fp.fptr, nsect) && fp.fptr <= |FileBytes(fp)|
    ensures fp.fptr == target
      || (fp.canWrite && fp.fptr < target && NoFree(Entries(fp.fs)) && fp.fptr == ClusterStart(fp.fs.g, |fp.chain|))
    ensures old(CountRight(fp.fs)) ==> CountRight(fp.fs)
  {
    hide Geometry.Valid, FatFs.Valid, FatFs.Synced, Fat, ValidDisk, FatStore, Forest, Chain, SectAt, Room, Entries,
         Owns, Secs, Clusters, BufferOk, OnlyMine, ClusterAt, SectorOf, OffsetIn, Part, Fil.View, Fil.Core, Flat,
         NoFree, CountRight, PositionAt, ClusterStart, ClusterBytes;
    var g := fp.fs.g;
    CoreValid(fp);
    Unchanged(fp);
    Viewed(fp);
    CSizePositive(fp);
    ghost var v0 := fp.View();
    ghost var c0 := fp.chain;
    BytesAreClusters(fp);
    var ifptr := fp.fptr;
    fp.fptr := 0;
    nsect := 0;
    FlatPrefix(g.ss, v0, v0);
    if target == 0 {
      AimedAtZero(fp);
    } else {
      var clst, ofs;
      ghost var k;
      clst, ofs, k := SeekFrom(fp, target, ifptr);
      CoreValid(fp);
      ghost var c1, s1 := fp.chain, fp.fs.Synced();
      if clst == 0 {
        AimedAtZero(fp);
        EmptyStart(g);
      } else {
        ReadOnlyRoom(fp, c0, target);
        ghost var full;
        clst, ofs, k, full := WalkClusters(fp, clst, ofs, k);
        CoreValid(fp);
        OnlyMineGrow(g, c1, fp.chain, old(fp.fs.Synced()), s1, fp.fs.Synced());
        fp.fptr := fp.fptr + ofs;
        PlaceInCluster(g, fp.chain, k, ofs);
        StartStep(g, k);
        if OffsetIn(g.ss, ofs) != 0 {
          FullIsWhole(g, ofs);
          nsect := Clust2Sect(g, clst) + SectorOf(g.ss, ofs);
        }
      }
      Viewed(fp);
      FlatPrefix(g.ss, v0, fp.View());
      BytesAreClusters(fp);
    }
  }

  lemma EmptyStart(g: Geometry)
    ensures ClusterStart(g, 0) == 0
  {
  }

  lemma AimedAtZero(fp: Fil)
    requires fp.Core()
    ensures Aimed(fp, 0, 0)
  {
    hide Fil.Core, Room;
    CSizePositive(fp);
    Place(fp.fs.g.ss, 0, 0);
  }

  lemma FullIsWhole(g: Geometry, ofs: nat)
    requires 0 < g.ss && OffsetIn(g.ss, ofs) != 0
    ensures ofs != ClusterBytes(g)
  {
    if ofs == ClusterBytes(g) { DivModUnique(g.csize, g.ss, 0); }
  }

  lemma BytesAreClusters(fp: Fil)
    requires fp.Core()
    ensures |FileBytes(fp)| == ClusterStart(fp.fs.g, |fp.chain|)
  {
    hide Fil.Core, FileBytes;
    Associate(|fp.chain|, fp.fs.g.csize, fp.fs.g.ss);
  }

  lemma Associate(a: nat, b: nat, c: nat)
    ensures a * b * c == a * (b * c)
  {
  }

  lemma ReadOnlyRoom(fp: Fil, c0: seq<nat>, target: nat)
    requires fp.Core() && c0 <= fp.chain && (c0 != [] ==> fp.chain == c0)
    requires !fp.canWrite ==> target <= ClusterStart(fp.fs.g, |c0|)
    ensures !fp.canWrite ==> target <= ClusterStart(fp.fs.g, |fp.chain|)
  {
  }

  // The tail of f_lseek: the buffer comes to hold the sector of the pointer.
  method Settle(fp: Fil, nsect: nat)
    requires fp.Core() && Aimed(fp, fp.fptr, nsect)
    modifies fp.fs`disk, fp`dirty, fp`dsect, fp.buf
    ensures fp.Core() && PositionAt(fp, fp.fptr) && FileBytes(fp) == old(FileBytes(fp))
    ensures fp.fs.Valid() && Entries(fp.fs) == old(Entries(fp.fs))
    ensures OnlyMine(fp.fs.g, fp.chain, old(fp.fs.Synced()), fp.fs.Synced())
  {
    hide Geometry.Valid, FatFs.Valid, FatFs.Synced, Fat, ValidDisk, Forest, Chain, SectAt, Room, Entries, Owns, Secs,
         Clusters, BufferOk, OnlyMine, ClusterAt, SectorOf, OffsetIn, Fil.View, Flat;
    Unchanged(fp);
    if OffsetIn(fp.fs.g.ss, fp.fptr) != 0 && nsect != fp.dsect {
      Flush(fp);
      OwnedSect(fp.fs.g, fp.chain, SectorOf(fp.fs.g.ss, fp.fptr));
      Load(fp, nsect);
    }
  }
}
