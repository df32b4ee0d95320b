// f_read, f_write, f_lseek and f_truncate over the sectors of one open file.
module FatFileOps {
  import opened Arith
  import opened Bytes
  import opened FatVolume
  import opened FatEntries
  import opened FatChains
  import opened FatAlloc
  import opened FatSectors
  import opened FatFile

  datatype FResult = FrOk | FrDenied | FrIntErr

  // ---- The position ----

  // The cluster sector j of the file lies in.
  ghost function ClusterAt(g: Geometry, chain: seq<nat>, j: nat): nat {
    if 0 < g.csize && j / g.csize < |chain| then chain[j / g.csize] else 0
  }

  // What clust and dsect have to be when the file pointer is p: clust is the
  // cluster of the byte before p, and inside a sector the buffer holds that sector.
  ghost predicate PositionAt(fp: Fil, p: nat)
    reads fp`chain, fp`clust, fp`dsect
  {
    0 < fp.fs.g.ss &&
    var g, j, o := fp.fs.g, SectorOf(fp.fs.g.ss, p), OffsetIn(fp.fs.g.ss, p);
    if o == 0 then j <= Room(g, fp.chain) && (j > 0 ==> fp.clust == ClusterAt(g, fp.chain, j - 1))
    else j < Room(g, fp.chain) && fp.dsect == SectAt(g, fp.chain, j) && fp.clust == ClusterAt(g, fp.chain, j)
  }

  lemma Place(ss: nat, j: nat, o: nat)
    requires o < ss
    ensures SectorOf(ss, j * ss + o) == j && OffsetIn(ss, j * ss + o) == o
  {
    DivModUnique(j, ss, o);
  }

  lemma PlaceOf(ss: nat, p: nat)
    requires 0 < ss
    ensures 0 <= OffsetIn(ss, p) < ss && 0 <= SectorOf(ss, p) && p == SectorOf(ss, p) * ss + OffsetIn(ss, p)
  {
    Fundamental(p, ss);
  }

  // On a sector boundary the cluster is found, or not, from the cluster before it.
  lemma Boundary(g: Geometry, chain: seq<nat>, j: nat)
    requires 0 < g.csize && j <= Room(g, chain) && j % g.csize == 0
    ensures 0 <= j / g.csize <= |chain|
    ensures j > 0 ==> 0 < j / g.csize && ClusterAt(g, chain, j - 1) == chain[j / g.csize - 1]
    ensures j / g.csize < |chain| ==> j < Room(g, chain) && ClusterAt(g, chain, j) == chain[j / g.csize]
  {
    var c := g.csize;
    Fundamental(j, c);
    var q := j / c;
    if |chain| < q { MulStep(|chain|, q, c); }
    if q < |chain| { MulStep(q, |chain|, c); }
    if j > 0 {
      assert q > 0;
      assert j - 1 == (q - 1) * c + (c - 1);
      DivModUnique(q - 1, c, c - 1);
    }
  }

  // Within a cluster the cluster stays the same.
  lemma SameCluster(g: Geometry, chain: seq<nat>, j: nat, n: nat)
    requires 0 < g.csize && 0 < n && j % g.csize + n <= g.csize
    ensures ClusterAt(g, chain, j + n - 1) == ClusterAt(g, chain, j)
  {
    Fundamental(j, g.csize);
    DivModUnique(j / g.csize, g.csize, j % g.csize + n - 1);
  }

  lemma NotFirst(g: Geometry, chain: seq<nat>, j: nat)
    requires 0 < g.csize && j <= Room(g, chain) && j % g.csize != 0
    ensures 0 < j < Room(g, chain) && ClusterAt(g, chain, j - 1) == ClusterAt(g, chain, j)
  {
    Fundamental(j, g.csize);
    if j == Room(g, chain) { DivModUnique(|chain|, g.csize, 0); }
    DivModUnique(j / g.csize, g.csize, j % g.csize - 1);
  }

  lemma SectOfClust(g: Geometry, chain: seq<nat>, j: nat)
    requires j < Room(g, chain)
    ensures 0 < g.csize && SectAt(g, chain, j) == Clust2Sect(g, ClusterAt(g, chain, j)) + j % g.csize
  {
    SectPlace(g, chain, j);
  }

  lemma CSizePositive(fp: Fil)
    requires fp.Core()
    ensures 0 < fp.fs.g.csize && fp.fs.g.ss <= 4096 == fp.buf.Length && 0 < fp.fs.g.ss
  {
  }

  // ---- Finding the cluster ----

  // On a cluster boundary: take the first cluster or the one after clust,
  // allocating it when there is none. False when the volume is full.
  method NextCluster(fp: Fil, ghost j: nat) returns (found: bool)
    requires fp.Core() && PositionAt(fp, fp.fptr) && OffsetIn(fp.fs.g.ss, fp.fptr) == 0
    requires j == SectorOf(fp.fs.g.ss, fp.fptr)
    requires 0 < fp.fs.g.csize && j % fp.fs.g.csize == 0 && (fp.fptr == 0 <==> j == 0)
    modifies fp.fs, fp.fs.win, fp`chain, fp`sclust, fp`clust
    ensures fp.Core() && old(fp.chain) <= fp.chain && old(fp.View()) <= fp.View()
    ensures OnlyMine(fp.fs.g, fp.chain, old(fp.fs.Synced()), fp.fs.Synced())
    ensures found ==> j < Room(fp.fs.g, fp.chain) && fp.clust == ClusterAt(fp.fs.g, fp.chain, j)
    ensures !found ==> fp.chain == old(fp.chain) && fp.clust == old(fp.clust) && NoFree(Entries(fp.fs))
    ensures old(CountRight(fp.fs)) ==> CountRight(fp.fs)
  {
    hide Geometry.Valid, FatFs.Valid, FatFs.Synced, Fat, ValidDisk, FatStore, Forest, Chain, SectAt, Room, Entries,
         Owns, Secs, Clusters, BufferOk, OnlyMine, Free, ClusterAt, SectorOf, OffsetIn;
    var clst;
    ghost var g := fp.fs.g;
    Boundary(g, fp.chain, j);
    if fp.fptr == 0 {
      clst := fp.sclust;
      ChainHead(fp);
      if clst == 0 {
        clst := Grow(fp, 0, 0);
      } else {
        Unchanged(fp);
      }
    } else {
      ChainHead(fp);
      clst := Grow(fp, fp.clust, j / g.csize - 1);
    }
    if clst == 0 {
      return false;
    }
    fp.clust := clst;
    RoomOfChain(g, fp.chain, j / g.csize);
    Boundary(g, fp.chain, j);
    return true;
  }

  lemma RoomOfChain(g: Geometry, chain: seq<nat>, k: nat)
    requires k < |chain| && 0 < g.csize
    ensures k * g.csize < Room(g, chain)
  {
    MulStep(k, |chain|, g.csize);
  }

  lemma ChainHead(fp: Fil)
    requires fp.Core()
    ensures fp.sclust == 0 <==> fp.chain == []
    ensures fp.chain != [] ==> fp.sclust == fp.chain[0]
    ensures forall k :: 0 <= k < |fp.chain| ==> 2 <= fp.chain[k]
  {
    CoreClusters(fp);
  }

  twostate lemma Unchanged(fp: Fil)
    requires old(fp.Core()) && fp.Core() && fp.fs.Synced() == old(fp.fs.Synced())
    ensures OnlyMine(fp.fs.g, fp.chain, old(fp.fs.Synced()), fp.fs.Synced())
  {
  }

  // ---- One round of f_write ----

  // f with d put over it from p on, as far as the first limit bytes and the
  // bytes up to the end of d are concerned.
  ghost predicate Wrote(f: seq<byte>, p: nat, d: seq<byte>, limit: nat, r: seq<byte>) {
    && |f| <= |r| && p + |d| <= |r| && p <= |f| && limit <= |f|
    && (forall i :: 0 <= i < |r| && (i < limit || i < p + |d|) ==>
          r[i] == if p <= i < p + |d| then d[i - p] else f[i])
  }

  lemma PatchedWrote(f: seq<byte>, g: seq<byte>, p: nat, d: seq<byte>, limit: nat, r: seq<byte>)
    requires |f| <= |g| && f == g[..|f|] && p <= |f| && limit <= |f| && Patched(g, p, d, r)
    ensures Wrote(f, p, d, limit, r)
  {
  }

  // The sector is not read in when it lies behind the end of the file: its bytes
  // behind d may then be anything.
  lemma FrontWrote(ss: nat, secs: seq<Sector>, next: seq<Sector>, f: seq<byte>, j: nat, d: seq<byte>, limit: nat)
    requires Sized(ss, secs) && |next| == |secs| && j < |secs| && |next[j]| == ss && |d| <= ss && next[j][..|d|] == d
    requires forall q: nat :: q < |secs| && q != j ==> next[q] == secs[q]
    requires |f| <= |secs| * ss && f == Flat(ss, secs)[..|f|] && limit <= j * ss <= |f| && limit <= |f|
    ensures Sized(ss, next) && Wrote(f, j * ss, d, limit, Flat(ss, next))
  {
    MulStep(j, |secs|, ss);
    var r := Flat(ss, next);
    forall i | 0 <= i < |r| && i < j * ss + |d|
      ensures r[i] == if j * ss <= i then d[i - j * ss] else Flat(ss, secs)[i]
    {
      DivBelow(i, |secs|, ss);
      FrontOne(ss, secs, next, j, d, i / ss, i % ss);
    }
  }

  lemma FrontOne(ss: nat, secs: seq<Sector>, next: seq<Sector>, j: nat, d: seq<byte>, q: nat, o: nat)
    requires |next| == |secs| && j < |secs| && |next[j]| == ss && |d| <= ss && next[j][..|d|] == d
    requires q < |secs| && o < ss && |secs[q]| == ss == |next[q]| && q * ss + o < j * ss + |d|
    requires q != j ==> next[q] == secs[q]
    ensures j * ss <= q * ss + o <==> q == j
    ensures next[q][o] == if q == j then d[q * ss + o - j * ss] else secs[q][o]
  {
    if q < j { MulStep(q, j, ss); }
    if j < q { MulStep(j, q, ss); }
    if q == j { assert next[j][..|d|][o] == next[j][o]; }
  }

  // The file's bytes, as many as its clusters have room for.
  ghost function FileBytes(fp: Fil): (r: seq<byte>)
    requires fp.Core()
    reads fp`chain, fp`others, fp`sclust, fp`dirty, fp`dsect, fp.buf, fp.fs`disk, fp.fs`wflag, fp.fs`winsect, fp.fs.win
    ensures |r| == Room(fp.fs.g, fp.chain) * fp.fs.g.ss
  {
    Viewed(fp);
    Flat(fp.fs.g.ss, fp.View())
  }

  lemma Viewed(fp: Fil)
    requires fp.Core()
    ensures 0 < fp.fs.g.ss && Sized(fp.fs.g.ss, fp.View())
  {
    CoreClusters(fp);
    CoreBuffer(fp);
    FileSectorSize(fp.fs.g, fp.fs.Synced(), fp.chain, fp.dirty, fp.dsect, fp.buf[..fp.fs.g.ss]);
  }

  // A run of whole sectors, written straight from the caller's data.
  lemma DirectBytes(ss: nat, secs: seq<Sector>, next: seq<Sector>, f: seq<byte>, j: nat, n: nat, d: seq<byte>,
                    limit: nat)
    requires Sized(ss, secs) && |next| == |secs| && j + n <= |secs| && |d| == n * ss
    requires forall q: nat :: q < |secs| ==> next[q] == if j <= q < j + n then Part(ss, d, q - j) else secs[q]
    requires |f| <= |secs| * ss && f == Flat(ss, secs)[..|f|] && j * ss <= |f| && limit <= |f|
    ensures Sized(ss, next) && Wrote(f, j * ss, d, limit, Flat(ss, next))
  {
    forall q | 0 <= q < |next|
      ensures |next[q]| == ss
    {
      if j <= q < j + n { PartAt(ss, d, n, q - j); }
    }
    PatchSectors(ss, secs, next, j, n, d);
    PatchedWrote(f, Flat(ss, secs), j * ss, d, limit, Flat(ss, next));
  }

  lemma PartialBytes(ss: nat, secs: seq<Sector>, next: seq<Sector>, f: seq<byte>, j: nat, o: nat, d: seq<byte>,
                     limit: nat)
    requires Sized(ss, secs) && |next| == |secs| && j < |secs|
    requires forall q: nat :: q < |secs| && q != j ==> next[q] == secs[q]
    requires Patched(secs[j], o, d, next[j])
    requires |f| <= |secs| * ss && f == Flat(ss, secs)[..|f|] && j * ss + o <= |f| && limit <= |f|
    ensures Sized(ss, next) && Wrote(f, j * ss + o, d, limit, Flat(ss, next))
  {
    PatchSector(ss, secs, next, j, o, d);
    PatchedWrote(f, Flat(ss, secs), j * ss + o, d, limit, Flat(ss, next));
  }

  // Whole sectors from the caller's data, clipped at the end of the cluster.
  method WriteDirect(fp: Fil, d: seq<byte>, sect: nat, csect: nat, ghost f: seq<byte>, ghost j: nat) returns (wcnt: nat)
    requires fp.Core() && !fp.dirty && 0 < fp.fs.g.ss <= |d| && fp.fptr == j * fp.fs.g.ss
    requires 0 < fp.fs.g.csize && j < Room(fp.fs.g, fp.chain) && csect == j % fp.fs.g.csize
    requires sect == SectAt(fp.fs.g, fp.chain, j) && fp.clust == ClusterAt(fp.fs.g, fp.chain, j)
    requires |f| <= |FileBytes(fp)| && f == FileBytes(fp)[..|f|] && fp.fptr <= |f| && fp.fsize <= |f|
    modifies fp.fs`disk, fp.buf
    ensures fp.Core() && 0 < wcnt <= |d|
    ensures Wrote(f, fp.fptr, d[..wcnt], fp.fsize, FileBytes(fp)) && PositionAt(fp, fp.fptr + wcnt)
    ensures OnlyMine(fp.fs.g, fp.chain, old(fp.fs.Synced()), fp.fs.Synced())
    ensures Entries(fp.fs) == old(Entries(fp.fs))
  {
    hide Geometry.Valid, FatFs.Valid, FatFs.Synced, Fat, ValidDisk, FatStore, Forest, Chain, SectAt, Room, Entries,
         Owns, Secs, Clusters, BufferOk, OnlyMine, ClusterAt, SectorOf, OffsetIn, Part, Fil.Core, Fil.View, Flat;
    var ss := fp.fs.g.ss;
    Viewed(fp);
    ghost var secs := fp.View();
    var cc := SectorOf(ss, |d|);
    WholeSectors(|d|, ss, cc, j);
    if csect + cc > fp.fs.g.csize {
      cc := fp.fs.g.csize - csect;
    }
    WholeSectors(|d|, ss, cc, j);
    wcnt := ss * cc;
    DirectWrite(fp, sect, d[..wcnt], cc, j);
    DirectBytes(ss, secs, fp.View(), f, j, cc, d[..wcnt], fp.fsize);
    Place(ss, j + cc, 0);
    SameCluster(fp.fs.g, fp.chain, j, cc);
  }

  // The byte count of whole sectors.
  lemma WholeSectors(len: nat, ss: nat, cc: nat, j: nat)
    requires 0 < ss <= len && cc <= SectorOf(ss, len)
    ensures 0 < SectorOf(ss, len)
    ensures ss * cc == cc * ss <= len && (0 < cc ==> 0 < ss * cc) && j * ss + ss * cc == (j + cc) * ss + 0
  {
    Fundamental(len, ss);
    if cc < len / ss { MulStep(cc, len / ss, ss); }
    if 0 < cc { MulStep(0, cc, ss); }
  }

  // A part of one sector, through the buffer.
  method WriteBuffered(fp: Fil, d: seq<byte>, sect: nat, ghost f: seq<byte>, ghost j: nat, ghost o: nat)
    returns (wcnt: nat)
    requires fp.Core() && 0 < |d| && 0 <= o < fp.fs.g.ss && fp.fptr == j * fp.fs.g.ss + o
    requires j < Room(fp.fs.g, fp.chain)
    requires sect == SectAt(fp.fs.g, fp.chain, j) && fp.clust == ClusterAt(fp.fs.g, fp.chain, j)
    requires |f| <= |FileBytes(fp)| && f == FileBytes(fp)[..|f|] && fp.fptr <= |f| && fp.fsize <= |f|
    requires fp.dsect == sect || (!fp.dirty && o == 0 && fp.fsize <= fp.fptr)
    modifies fp`dsect, fp`dirty, fp.buf
    ensures fp.Core() && 0 < wcnt <= |d|
    ensures Wrote(f, fp.fptr, d[..wcnt], fp.fsize, FileBytes(fp)) && PositionAt(fp, fp.fptr + wcnt)
  {
    hide Geometry.Valid, FatFs.Valid, FatFs.Synced, Fat, ValidDisk, FatStore, Forest, Chain, SectAt, Room, Entries,
         Owns, Secs, Clusters, BufferOk, OnlyMine, ClusterAt, SectorOf, OffsetIn, Part, Fil.Core, Fil.View, Flat,
         Patched, Wrote;
    var ss := fp.fs.g.ss;
    Place(ss, j, o);
    Viewed(fp);
    ghost var secs := fp.View();
    var at := OffsetIn(ss, fp.fptr);
    wcnt := ss - at;
    if wcnt > |d| { wcnt := |d|; }
    ghost var held := fp.dsect == sect;
    PutPartial(fp, sect, at, d[..wcnt], j);
    if held {
      PartialBytes(ss, secs, fp.View(), f, j, o, d[..wcnt], fp.fsize);
    } else {
      FrontWrote(ss, secs, fp.View(), f, j, d[..wcnt], fp.fsize);
    }
    AfterPart(ss, j, o + wcnt);
  }

  lemma AfterPart(ss: nat, j: nat, o: nat)
    requires 0 < o <= ss
    ensures SectorOf(ss, j * ss + o) == (if o < ss then j else j + 1)
    ensures OffsetIn(ss, j * ss + o) == (if o < ss then o else 0)
  {
    if o < ss {
      Place(ss, j, o);
    } else {
      assert j * ss + o == (j + 1) * ss + 0;
      Place(ss, j + 1, 0);
    }
  }

  lemma ZeroPlace(ss: nat, p: nat)
    requires 0 < ss && OffsetIn(ss, p) == 0
    ensures p == 0 <==> SectorOf(ss, p) == 0
    ensures p == SectorOf(ss, p) * ss
  {
    Fundamental(p, ss);
    if SectorOf(ss, p) != 0 { MulStep(0, p / ss, ss); }
  }

  lemma NothingWrote(f: seq<byte>, p: nat, d: seq<byte>, limit: nat, r: seq<byte>)
    requires |f| <= |r| && f == r[..|f|] && p <= |f| && limit <= |f|
    ensures Wrote(f, p, d[..0], limit, r)
  {
  }

  lemma OnlyMineTwice(g: Geometry, chain: seq<nat>, a: seq<Sector>, b: seq<Sector>, c: seq<Sector>)
    requires OnlyMine(g, chain, a, b) && OnlyMine(g, chain, b, c)
    ensures OnlyMine(g, chain, a, c)
  {
  }

  lemma OwnedSect(g: Geometry, chain: seq<nat>, j: nat)
    requires j < Room(g, chain)
    ensures Owns(g, chain, SectAt(g, chain, j))
  {
  }

  // One round of f_write's loop: how many bytes of d it took, 0 when the volume is full.
  method WriteStep(fp: Fil, d: seq<byte>) returns (wcnt: nat)
    requires fp.Core() && PositionAt(fp, fp.fptr) && 0 < |d|
    requires fp.fptr <= |FileBytes(fp)| && fp.fsize <= |FileBytes(fp)|
    modifies fp.fs, fp.fs.win, fp`chain, fp`sclust, fp`clust, fp`dsect, fp`dirty, fp.buf
    ensures fp.Core() && old(fp.chain) <= fp.chain && wcnt <= |d|
    ensures OnlyMine(fp.fs.g, fp.chain, old(fp.fs.Synced()), fp.fs.Synced())
    ensures Wrote(old(FileBytes(fp)), fp.fptr, d[..wcnt], fp.fsize, FileBytes(fp)) && PositionAt(fp, fp.fptr + wcnt)
    ensures wcnt == 0 ==> fp.chain == old(fp.chain) && NoFree(Entries(fp.fs))
    ensures old(CountRight(fp.fs)) ==> CountRight(fp.fs)
  {
    hide Geometry.Valid, FatFs.Valid, FatFs.Synced, Fat, ValidDisk, FatStore, Forest, Chain, SectAt, Room, Entries,
         Owns, Secs, Clusters, BufferOk, OnlyMine, ClusterAt, SectorOf, OffsetIn, Part, Fil.View, Flat, Wrote, Free,
         NoFree;
    var ss := fp.fs.g.ss;
    ghost var f := FileBytes(fp);
    CSizePositive(fp);
    PlaceOf(ss, fp.fptr);
    ghost var j, o := SectorOf(ss, fp.fptr), OffsetIn(ss, fp.fptr);
    if OffsetIn(ss, fp.fptr) == 0 {
      ZeroPlace(ss, fp.fptr);
      var csect := SectorOf(ss, fp.fptr) % fp.fs.g.csize;
      var found := ClusterFor(fp, csect, j, f);
      if !found {
        NothingWrote(f, fp.fptr, d, fp.fsize, FileBytes(fp));
        return 0;
      }
      var sect := Clust2Sect(fp.fs.g, fp.clust) + csect;
      SectOfClust(fp.fs.g, fp.chain, j);
      ghost var s2 := fp.fs.Synced();
      if |d| >= ss {
        wcnt := WriteDirect(fp, d, sect, csect, f, j);
        OnlyMineTwice(fp.fs.g, fp.chain, old(fp.fs.Synced()), s2, fp.fs.Synced());
      } else {
        if fp.dsect != sect {
          if fp.fptr < fp.fsize {
            OwnedSect(fp.fs.g, fp.chain, j);
            Load(fp, sect);
          }
        }
        wcnt := WriteBuffered(fp, d, sect, f, j, o);
      }
    } else {
      Unchanged(fp);
      wcnt := WriteBuffered(fp, d, fp.dsect, f, j, o);
    }
  }

  // On a sector boundary: clust becomes the cluster of that sector, and the
  // buffer is written back. False when the volume is full.
  method ClusterFor(fp: Fil, csect: nat, ghost j: nat, ghost f: seq<byte>) returns (found: bool)
    requires fp.Core() && PositionAt(fp, fp.fptr) && OffsetIn(fp.fs.g.ss, fp.fptr) == 0
    requires j == SectorOf(fp.fs.g.ss, fp.fptr)
    requires 0 < fp.fs.g.csize && csect == j % fp.fs.g.csize && (fp.fptr == 0 <==> j == 0)
    requires f == FileBytes(fp)
    modifies fp.fs, fp.fs.win, fp`chain, fp`sclust, fp`clust, fp`dirty
    ensures fp.Core() && old(fp.chain) <= fp.chain
    ensures OnlyMine(fp.fs.g, fp.chain, old(fp.fs.Synced()), fp.fs.Synced())
    ensures |f| <= |FileBytes(fp)| && f == FileBytes(fp)[..|f|]
    ensures found ==> !fp.dirty && j < Room(fp.fs.g, fp.chain) && fp.clust == ClusterAt(fp.fs.g, fp.chain, j)
    ensures !found ==> PositionAt(fp, fp.fptr) && fp.chain == old(fp.chain) && NoFree(Entries(fp.fs))
    ensures old(CountRight(fp.fs)) ==> CountRight(fp.fs)
  {
    hide Geometry.Valid, FatFs.Valid, FatFs.Synced, Fat, ValidDisk, FatStore, Forest, Chain, SectAt, Room, Entries,
         Owns, Secs, Clusters, BufferOk, OnlyMine, ClusterAt, SectorOf, OffsetIn, Part, Fil.View, Flat, Wrote, Free,
         NoFree;
    var ss := fp.fs.g.ss;
    Viewed(fp);
    ghost var v0 := fp.View();
    found := true;
    if csect == 0 {
      found := NextCluster(fp, j);
    } else {
      NotFirst(fp.fs.g, fp.chain, j);
      Unchanged(fp);
    }
    Viewed(fp);
    FlatPrefix(ss, v0, fp.View());
    if found {
      ghost var s1 := fp.fs.Synced();
      Flush(fp);
      OnlyMineTwice(fp.fs.g, fp.chain, old(fp.fs.Synced()), s1, fp.fs.Synced());
    }
  }

  lemma WroteMore(f: seq<byte>, p: nat, a: seq<byte>, limit: nat, r1: seq<byte>, b: seq<byte>, r2: seq<byte>)
    requires Wrote(f, p, a, limit, r1) && Wrote(r1, p + |a|, b, limit, r2)
    ensures Wrote(f, p, a + b, limit, r2)
  {
  }

  // ---- The open file as a byte string ----

  // Between two calls.
  ghost predicate Valid(fp: Fil)
    reads fp, fp.buf, fp.fs`disk, fp.fs`wflag, fp.fs`winsect, fp.fs.win
  {
    && fp.Core() && PositionAt(fp, fp.fptr)
    && fp.fptr <= fp.fsize <= |FileBytes(fp)| && fp.fsize < 0x1_0000_0000
  }

  // What the file holds.
  ghost function Content(fp: Fil): (r: seq<byte>)
    requires Valid(fp)
    reads fp, fp.buf, fp.fs`disk, fp.fs`wflag, fp.fs`winsect, fp.fs.win
    ensures |r| == fp.fsize
  {
    FileBytes(fp)[..fp.fsize]
  }

  // Octet i of the file, by its place on the drive: the clusters of the chain follow one
  // another in the file, cluster c has csize sectors from database + (c - 2) * csize on, and a
  // sector has ss octets. Octets not yet written back are in the buffer.
  ghost function DriveOctet(fp: Fil, i: nat): int
    reads fp`chain, fp`dirty, fp`dsect, fp.buf, fp.fs`disk
  {
    var g := fp.fs.g;
    if 0 < g.csize && 0 < g.ss <= fp.buf.Length && i / g.ss / g.csize < |fp.chain| then
      var c := fp.chain[i / g.ss / g.csize];
      var s, o := g.database + (c - 2) * g.csize + i / g.ss % g.csize, i % g.ss;
      if fp.dirty && fp.dsect == s then fp.buf[o]
      else if 0 <= s < |fp.fs.disk| && o < |fp.fs.disk[s]| then fp.fs.disk[s][o] else -1
    else -1
  }

  // What the file holds is what lies there.
  lemma ContentOnDrive(fp: Fil)
    requires Valid(fp)
    ensures forall i: nat :: i < fp.fsize ==> Content(fp)[i] == DriveOctet(fp, i)
  {
    hide PositionAt, DriveOctet, Fil.Core, FileBytes;
    forall i: nat | i < fp.fsize ensures Content(fp)[i] == DriveOctet(fp, i) { OctetOnDrive(fp, i); }
  }

  lemma OctetOnDrive(fp: Fil, i: nat)
    requires fp.Core() && i < |FileBytes(fp)|
    ensures FileBytes(fp)[i] == DriveOctet(fp, i)
  {
    hide Geometry.Valid, FatFs.Valid, FatFs.Synced, Fat, ValidDisk, Forest, Chain, Entries, Owns, SectAt, Room;
    var g := fp.fs.g;
    CSizePositive(fp);
    CoreClusters(fp);
    Viewed(fp);
    DivBelow(i, Room(g, fp.chain), g.ss);
    var j := i / g.ss;
    SectPlace(g, fp.chain, j);
    ViewOnDrive(fp, j);
    FlatAt(g.ss, fp.View(), j, i % g.ss);
  }

  // Sector j of the file on the drive.
  lemma ViewOnDrive(fp: Fil, j: nat)
    requires fp.Core() && j < Room(fp.fs.g, fp.chain)
    ensures var s := SectAt(fp.fs.g, fp.chain, j);
            s < |fp.fs.disk| && |fp.fs.disk[s]| == fp.fs.g.ss
            && fp.View()[j] == if fp.dirty && fp.dsect == s then fp.buf[..fp.fs.g.ss] else fp.fs.disk[s]
  {
    hide Geometry.Valid, FatFs.Synced, Fat, Forest, Chain, Entries, SectAt, Room, Clusters;
    var g, s := fp.fs.g, SectAt(fp.fs.g, fp.chain, j);
    CoreClusters(fp);
    SectInside(g, |fp.fs.disk|, fp.chain, j);
    OwnedSect(g, fp.chain, j);
    RawSector(fp.fs, s);
    assert fp.View()[j] == FileSector(g, fp.fs.Synced(), fp.chain, fp.dirty, fp.dsect, fp.buf[..g.ss], j);
  }

  // s with d put over it from p on, growing at the end when d does not fit.
  function Overlay(s: seq<byte>, p: nat, d: seq<byte>): seq<byte>
    requires p <= |s|
  {
    s[..p] + d + (if p + |d| <= |s| then s[p + |d|..] else [])
  }

  lemma WroteOverlay(f: seq<byte>, p: nat, d: seq<byte>, limit: nat, r: seq<byte>, size: nat)
    requires Wrote(f, p, d, limit, r) && p <= limit && size == (if p + |d| > limit then p + |d| else limit)
    ensures size <= |r| && r[..size] == Overlay(f[..limit], p, d)
  {
  }

  lemma OverlayAt(s: seq<byte>, p: nat, d: seq<byte>, i: nat)
    requires p <= |s| && i < |d|
    ensures p + i < |Overlay(s, p, d)| && Overlay(s, p, d)[p + i] == d[i]
  {
  }

  // f_write: puts the data over the file from its pointer on, as much of it as
  // the volume has room for, and moves the pointer behind it. No sector of
  // another chain changes.
  method FWrite(fp: Fil, buff: seq<byte>) returns (res: FResult, bw: nat)
    requires Valid(fp) && |buff| < 0x1_0000_0000
    modifies fp.fs, fp.fs.win, fp, fp.buf
    ensures Valid(fp) && fp.others == old(fp.others) && old(fp.chain) <= fp.chain
    ensures OnlyMine(fp.fs.g, fp.chain, old(fp.fs.Synced()), fp.fs.Synced())
    ensures res == if fp.canWrite then FrOk else FrDenied
    ensures bw <= |buff| && fp.fptr == old(fp.fptr) + bw && fp.written == (old(fp.written) || fp.canWrite)
    ensures Content(fp) == Overlay(old(Content(fp)), old(fp.fptr), buff[..bw])
    ensures forall i :: 0 <= i < bw ==> DriveOctet(fp, old(fp.fptr) + i) == buff[i]
    ensures fp.canWrite && old(fp.fptr) + |buff| < 0x1_0000_0000 && bw < |buff| ==> NoFree(Entries(fp.fs))
    ensures fp.canWrite && old(fp.fptr) + |buff| >= 0x1_0000_0000 ==> bw == 0
    ensures old(CountRight(fp.fs)) ==> CountRight(fp.fs)
  {
    hide Geometry.Valid, FatFs.Valid, FatFs.Synced, Fat, ValidDisk, FatStore, Forest, Chain, SectAt, Room, Entries,
         Owns, Secs, Clusters, BufferOk, OnlyMine, ClusterAt, SectorOf, OffsetIn, Part, Fil.View, Flat, Wrote, Free,
         NoFree, FileBytes, PositionAt, DriveOctet;
    ghost var f, p0, fsize0 := FileBytes(fp), fp.fptr, fp.fsize;
    bw := 0;
    NothingWrote(f, p0, buff, fsize0, f);
    Unchanged(fp);
    if !fp.canWrite {
      WroteOverlay(f, p0, buff[..0], fsize0, f, fsize0);
      return FrDenied, 0;
    }
    if fp.fptr + |buff| < 0x1_0000_0000 {
      bw := WriteAll(fp, buff);
    }
    if fp.fptr > fp.fsize { fp.fsize := fp.fptr; }
    fp.written := true;
    WroteOverlay(f, p0, buff[..bw], fsize0, FileBytes(fp), fp.fsize);
    res := FrOk;
    ContentOnDrive(fp);
    forall i | 0 <= i < bw ensures DriveOctet(fp, p0 + i) == buff[i] { OverlayAt(f[..fsize0], p0, buff[..bw], i); }
  }

  // f_write's loop.
  method WriteAll(fp: Fil, buff: seq<byte>) returns (bw: nat)
    requires fp.Core() && PositionAt(fp, fp.fptr) && fp.fptr <= fp.fsize <= |FileBytes(fp)|
    modifies fp.fs, fp.fs.win, fp`fptr, fp`chain, fp`sclust, fp`clust, fp`dsect, fp`dirty, fp.buf
    ensures fp.Core() && PositionAt(fp, fp.fptr) && fp.fptr == old(fp.fptr) + bw && bw <= |buff|
    ensures Wrote(old(FileBytes(fp)), old(fp.fptr), buff[..bw], fp.fsize, FileBytes(fp))
    ensures old(fp.chain) <= fp.chain && OnlyMine(fp.fs.g, fp.chain, old(fp.fs.Synced()), fp.fs.Synced())
    ensures bw < |buff| ==> NoFree(Entries(fp.fs))
    ensures old(CountRight(fp.fs)) ==> CountRight(fp.fs)
  {
    hide Geometry.Valid, FatFs.Valid, FatFs.Synced, Fat, ValidDisk, FatStore, Forest, Chain, SectAt, Room, Entries,
         Owns, Secs, Clusters, BufferOk, OnlyMine, ClusterAt, SectorOf, OffsetIn, Part, Fil.View, Fil.Core, Flat,
         Wrote, Free, NoFree, FileBytes, PositionAt, CountRight;
    ghost var f, p0 := FileBytes(fp), fp.fptr;
    bw := 0;
    CoreValid(fp);
    Unchanged(fp);
    NothingWrote(f, p0, buff, fp.fsize, f);
    WroteBound(f, p0, buff[..0], fp.fsize, f);
    while bw < |buff|
      invariant fp.fs.Valid() && fp.Core() && PositionAt(fp, fp.fptr)
      invariant 0 <= bw <= |buff| && fp.fptr == p0 + bw <= |FileBytes(fp)| && fp.fsize <= |FileBytes(fp)|
      invariant Wrote(f, p0, buff[..bw], fp.fsize, FileBytes(fp))
      invariant old(fp.chain) <= fp.chain
      invariant OnlyMine(fp.fs.g, fp.chain, old(fp.fs.Synced()), fp.fs.Synced())
      invariant old(CountRight(fp.fs)) ==> CountRight(fp.fs)
    {
      ghost var f1, c1, s1 := FileBytes(fp), fp.chain, fp.fs.Synced();
      var d := buff[bw..];
      var wcnt := WriteStep(fp, d);
      CoreValid(fp);
      OnlyMineGrow(fp.fs.g, c1, fp.chain, old(fp.fs.Synced()), s1, fp.fs.Synced());
      WroteMore(f, p0, buff[..bw], fp.fsize, f1, d[..wcnt], FileBytes(fp));
      assert buff[..bw] + d[..wcnt] == buff[..bw + wcnt];
      WroteBound(f, p0, buff[..bw + wcnt], fp.fsize, FileBytes(fp));
      if wcnt == 0 {
        assert buff[..bw + wcnt] == buff[..bw];
        break;
      }
      fp.fptr, bw := fp.fptr + wcnt, bw + wcnt;
    }
  }

  lemma CoreValid(fp: Fil)
    requires fp.Core()
    ensures fp.fs.Valid()
  {
  }

  lemma WroteBound(f: seq<byte>, p: nat, d: seq<byte>, limit: nat, r: seq<byte>)
    requires Wrote(f, p, d, limit, r)
    ensures p + |d| <= |r| && limit <= |r|
  {
  }

  lemma OnlyMineGrow(g: Geometry, chain: seq<nat>, longer: seq<nat>, a: seq<Sector>, b: seq<Sector>, c: seq<Sector>)
    requires chain <= longer && OnlyMine(g, chain, a, b) && OnlyMine(g, longer, b, c)
    ensures OnlyMine(g, longer, a, c)
  {
    forall s: nat | s < |a| && !g.InFatArea(s) && !Owns(g, longer, s)
      ensures c[s] == a[s]
    {
      if Owns(g, chain, s) { OwnsPrefix(g, chain, longer, s); }
    }
  }

  // A file just opened: what f_open leaves in the object makes a valid file, as long
  // as its clusters have room for its size.
  lemma Opened(fp: Fil)
    requires fp.Shape() && fp.fptr == 0 && fp.dsect == 0 && !fp.dirty
    requires Forest(Entries(fp.fs), All(fp.chain, fp.others)) && fp.chain !in fp.others
    requires fp.sclust == (if fp.chain == [] then 0 else fp.chain[0]) && !Owns(fp.fs.g, fp.chain, fp.fs.winsect)
    requires fp.fsize <= Room(fp.fs.g, fp.chain) * fp.fs.g.ss && fp.fsize < 0x1_0000_0000
    ensures Valid(fp)
  {
    hide Forest, Owns, Room;
    Place(fp.fs.g.ss, 0, 0);
  }

  // A sector of a cluster on any other chain is none of the file's: what an
  // operation on the file keeps outside its chain includes every other chain's data.
  lemma OthersKept(fp: Fil, before: seq<Sector>, after: seq<Sector>, other: seq<nat>, i: nat, m: nat)
    requires fp.Core() && other in fp.others && i < |other| && m < fp.fs.g.csize
    requires |before| == |fp.fs.disk| && OnlyMine(fp.fs.g, fp.chain, before, after)
    ensures 2 <= other[i] < fp.fs.g.nFatent && Clust2Sect(fp.fs.g, other[i]) + m < |before|
    ensures after[Clust2Sect(fp.fs.g, other[i]) + m] == before[Clust2Sect(fp.fs.g, other[i]) + m]
  {
    hide Chain, Geometry.Valid, SectAt, Room, Clust2Sect;
    var g, s := fp.fs.g, Clust2Sect(fp.fs.g, other[i]) + m;
    CoreClusters(fp);
    var all := All(fp.chain, fp.others);
    assert other in all && other[i] in other;
    ChainInside(Entries(fp.fs), other);
    ClusterSectors(g, |before|, other[i], m, other[i], m);
    NotShared(Entries(fp.fs), fp.chain, fp.others, other, other[i]);
    if Owns(g, fp.chain, s) {
      var j: nat :| j < Room(g, fp.chain) && SectAt(g, fp.chain, j) == s;
      SectForeign(g, |before|, fp.chain, j, other[i], m);
    }
  }

  lemma NotShared(fat: Table, chain: seq<nat>, others: set<seq<nat>>, other: seq<nat>, c: nat)
    requires Forest(fat, All(chain, others)) && chain !in others && other in others && c in other
    ensures c !in chain
  {
    hide Chain;
    if chain != [] {
      assert chain in All(chain, others) && other in All(chain, others) && chain != other;
      assert Disjoint(chain, other);
    }
  }
}
