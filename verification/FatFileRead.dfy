// f_read: the slice of the file at its pointer.
module FatFileRead {
  import opened Arith
  import opened Bytes
  import opened FatVolume
  import opened FatEntries
  import opened FatChains
  import opened FatAlloc
  import opened FatSectors
  import opened FatFile
  import opened FatFileOps

  // ---- Reading whole sectors ----

  // disk_read of n sectors into the caller's memory.
  method DiskRead(fs: FatFs, rbuff: array<byte>, at: nat, sect: nat, n: nat)
    requires fs.Valid() && sect + n <= |fs.disk| && at + n * fs.g.ss <= rbuff.Length && rbuff != fs.win
    modifies rbuff
    ensures rbuff[..at] == old(rbuff[..at])
    ensures Sized(fs.g.ss, fs.disk[sect..sect + n])
    ensures rbuff[at..at + n * fs.g.ss] == Flat(fs.g.ss, fs.disk[sect..sect + n])
  {
    hide Geometry.Valid, Flat;
    var data := Flat(fs.g.ss, fs.disk[sect..sect + n]);
    Copy(rbuff, at, data);
  }

  // mem_cpy to an offset of the caller's memory.
  method Copy(rbuff: array<byte>, at: nat, d: seq<byte>)
    requires at + |d| <= rbuff.Length
    modifies rbuff
    ensures rbuff[..at] == old(rbuff[..at]) && rbuff[at..at + |d|] == d && rbuff[at + |d|..] == old(rbuff[at + |d|..])
  {
    forall i | at <= i < at + |d| {
      rbuff[i] := d[i - at];
    }
  }

  // Sectors in a row are a slice of the file.
  lemma FlatSlice(ss: nat, secs: seq<Sector>, j: nat, n: nat)
    requires Sized(ss, secs) && j + n <= |secs|
    ensures j * ss + n * ss <= |secs| * ss
    ensures Flat(ss, secs[j..j + n]) == Flat(ss, secs)[j * ss..j * ss + n * ss]
  {
    hide Flat;
    var run := secs[j..j + n];
    var part, whole, from := Flat(ss, run), Flat(ss, secs), j * ss;
    SliceInside(ss, |secs|, j, n);
    forall i | 0 <= i < |part| ensures part[i] == whole[from + i] { SliceAt(ss, secs, j, n, i); }
    assert |part| == n * ss;
  }

  lemma SliceInside(ss: nat, count: nat, j: nat, n: nat)
    requires j + n <= count
    ensures j * ss + n * ss <= count * ss
  {
    assert (j + n) * ss == j * ss + n * ss;
    if j + n < count { MulStep(j + n, count, ss); }
  }

  lemma SliceAt(ss: nat, secs: seq<Sector>, j: nat, n: nat, i: nat)
    requires Sized(ss, secs) && j + n <= |secs| && i < n * ss
    ensures j * ss + i < |secs| * ss && Flat(ss, secs[j..j + n])[i] == Flat(ss, secs)[j * ss + i]
  {
    hide Flat;
    DivBelow(i, n, ss);
    InRun(ss, secs, j, n, i / ss, i % ss);
  }

  lemma InRun(ss: nat, secs: seq<Sector>, j: nat, n: nat, q: nat, o: nat)
    requires Sized(ss, secs) && j + n <= |secs| && q < n && o < ss
    ensures q * ss + o < n * ss && j * ss + (q * ss + o) < |secs| * ss
    ensures Flat(ss, secs[j..j + n])[q * ss + o] == Flat(ss, secs)[j * ss + (q * ss + o)]
  {
    hide Flat;
    assert (j + q) * ss + o == j * ss + (q * ss + o);
    FlatAt(ss, secs, j + q, o);
    FlatAt(ss, secs[j..j + n], q, o);
  }

  // The sectors a run reads, with the dirty buffer laid over its own.
  lemma RunSecs(fp: Fil, j: nat, n: nat, m: nat)
    requires fp.Core() && j < Room(fp.fs.g, fp.chain) && m < n && j % fp.fs.g.csize + n <= fp.fs.g.csize
    ensures j + n <= |fp.View()| && SectAt(fp.fs.g, fp.chain, j) + m < |fp.fs.disk|
    ensures
      var s := SectAt(fp.fs.g, fp.chain, j) + m;
      fp.View()[j + m] == if fp.dirty && fp.dsect == s then fp.buf[..fp.fs.g.ss] else fp.fs.disk[s]
  {
    hide Geometry.Valid, FatFs.Valid, FatFs.Synced, Fat, ValidDisk, Forest, Chain, SectAt, Room, Entries, Owns,
         Clusters;
    var g, chain := fp.fs.g, fp.chain;
    CoreClusters(fp);
    SectRun(g, chain, j, n);
    SectInside(g, |fp.fs.disk|, chain, j + m);
    OwnedSect(g, chain, j + m);
    RawSector(fp.fs, SectAt(g, chain, j + m));
    assert fp.View()[j + m] == FileSector(g, fp.fs.Synced(), chain, fp.dirty, fp.dsect, fp.buf[..g.ss], j + m);
  }

  lemma RunIsView(fp: Fil, j: nat, n: nat, run: seq<Sector>)
    requires fp.Core() && j < Room(fp.fs.g, fp.chain) && 0 < n == |run| && j % fp.fs.g.csize + n <= fp.fs.g.csize
    requires var sect := SectAt(fp.fs.g, fp.chain, j);
             sect + n <= |fp.fs.disk| && forall m: nat :: m < n ==>
               run[m] == if fp.dirty && fp.dsect == sect + m then fp.buf[..fp.fs.g.ss] else fp.fs.disk[sect + m]
    ensures j + n <= |fp.View()| && run == fp.View()[j..j + n]
  {
    hide Geometry.Valid, FatFs.Valid, FatFs.Synced, SectAt, Room, Fil.View, Fil.Core;
    RunSecs(fp, j, n, 0);
    forall m: nat | m < n ensures run[m] == fp.View()[j + m] { RunSecs(fp, j, n, m); }
  }

  method ReadDirect(fp: Fil, rbuff: array<byte>, at: nat, btr: nat, sect: nat, csect: nat, ghost j: nat)
    returns (rcnt: nat)
    requires fp.Core() && 0 < fp.fs.g.ss <= btr && at + btr <= rbuff.Length && rbuff != fp.buf && rbuff != fp.fs.win
    requires 0 < fp.fs.g.csize && j < Room(fp.fs.g, fp.chain) && csect == j % fp.fs.g.csize && fp.fptr == j * fp.fs.g.ss
    requires sect == SectAt(fp.fs.g, fp.chain, j) && fp.clust == ClusterAt(fp.fs.g, fp.chain, j)
    modifies rbuff
    ensures 0 < rcnt <= btr && PositionAt(fp, fp.fptr + rcnt) && fp.fptr + rcnt <= |FileBytes(fp)|
    ensures rbuff[..at] == old(rbuff[..at]) && rbuff[at..at + rcnt] == FileBytes(fp)[fp.fptr..fp.fptr + rcnt]
  {
    hide Geometry.Valid, FatFs.Valid, FatFs.Synced, Fat, ValidDisk, FatStore, Forest, Chain, SectAt, Room, Entries,
         Owns, Secs, Clusters, BufferOk, ClusterAt, SectorOf, OffsetIn, Part, Fil.View, Flat;
    var ss := fp.fs.g.ss;
    Viewed(fp);
    var cc := SectorOf(ss, btr);
    WholeSectors(btr, ss, cc, j);
    if csect + cc > fp.fs.g.csize {
      cc := fp.fs.g.csize - csect;
    }
    WholeSectors(btr, ss, cc, j);
    rcnt := ss * cc;
    RunInside(fp, j, cc);
    DiskRead(fp.fs, rbuff, at, sect, cc);
    ghost var run := fp.fs.disk[sect..sect + cc];
    if fp.dirty && sect <= fp.dsect < sect + cc {
      OverlayBuffer(fp, rbuff, at, sect, cc, run);
      run := run[fp.dsect - sect := fp.buf[..ss]];
    }
    RunIsView(fp, j, cc, run);
    FlatSlice(ss, fp.View(), j, cc);
    Place(ss, j + cc, 0);
    SameCluster(fp.fs.g, fp.chain, j, cc);
  }

  // mem_cpy of the dirty buffer over its sector's place in the caller's memory.
  method OverlayBuffer(fp: Fil, rbuff: array<byte>, at: nat, sect: nat, n: nat, ghost run: seq<Sector>)
    requires fp.Shape() && sect <= fp.dsect < sect + n && at + n * fp.fs.g.ss <= rbuff.Length && rbuff != fp.buf
    requires rbuff != fp.fs.win
    requires Sized(fp.fs.g.ss, run) && |run| == n && rbuff[at..at + n * fp.fs.g.ss] == Flat(fp.fs.g.ss, run)
    modifies rbuff
    ensures rbuff[..at] == old(rbuff[..at])
    ensures
      var next := run[fp.dsect - sect := fp.buf[..fp.fs.g.ss]];
      Sized(fp.fs.g.ss, next) && rbuff[at..at + n * fp.fs.g.ss] == Flat(fp.fs.g.ss, next)
  {
    hide Geometry.Valid, FatFs.Valid, Flat;
    var ss := fp.fs.g.ss;
    var k := fp.dsect - sect;
    MulStep(k, n, ss);
    ghost var before := rbuff[..];
    Copy(rbuff, at + k * ss, fp.buf[..ss]);
    ghost var next := run[k := fp.buf[..ss]];
    PatchSector(ss, run, next, k, 0, fp.buf[..ss]);
    OverlayEqual(before, rbuff[..], at, k * ss, fp.buf[..ss], Flat(ss, run), Flat(ss, next));
    assert rbuff[..][at..at + n * ss] == rbuff[at..at + n * ss];
  }

  lemma OverlayEqual(a: seq<byte>, b: seq<byte>, at: nat, p: nat, d: seq<byte>, f: seq<byte>, r: seq<byte>)
    requires |a| == |b| && at + |f| <= |a| && a[at..at + |f|] == f && p + |d| <= |f|
    requires b[..at + p] == a[..at + p] && b[at + p..at + p + |d|] == d && b[at + p + |d|..] == a[at + p + |d|..]
    requires Patched(f, p, d, r)
    ensures b[at..at + |f|] == r
  {
    forall i | 0 <= i < |f|
      ensures b[at + i] == r[i]
    {
      assert f[i] == a[at + i];
      if i < p { assert b[..at + p][at + i] == a[..at + p][at + i]; }
      else if i < p + |d| { assert b[at + p..at + p + |d|][i - p] == d[i - p]; }
      else { assert b[at + p + |d|..][i - p - |d|] == a[at + p + |d|..][i - p - |d|]; }
    }
  }

  // ---- One round of f_read ----

  // get_fat on the file's own chain: the cluster after chain[k].
  method Follow(fp: Fil, ghost k: nat) returns (c: nat)
    requires fp.Core() && k < |fp.chain| && fp.clust == fp.chain[k]
    modifies fp.fs`disk, fp.fs`wflag, fp.fs`winsect, fp.fs.win
    ensures fp.Core() && fp.fs.Synced() == old(fp.fs.Synced()) && fp.View() == old(fp.View())
    ensures if k + 1 < |fp.chain| then c == fp.chain[k + 1] && 2 <= c < fp.fs.g.nFatent else c >= fp.fs.g.nFatent
  {
    hide Geometry.Valid, FatFs.Valid, FatFs.Synced, Fat, ValidDisk, Forest, Chain, SectAt, Room, Owns, Secs,
         Clusters, BufferOk, OnlyMine;
    ghost var before, w0 := fp.fs.Synced(), fp.fs.winsect;
    CoreClusters(fp);
    ChainEntry(Entries(fp.fs), fp.chain, fp.others, k);
    c := GetFat(fp.fs, fp.clust);
    GrowBuffer(fp.fs.g, before, fp.fs.Synced(), w0, fp.fs.winsect, fp.chain, fp.chain, fp.dirty, fp.dsect,
               fp.buf[..fp.fs.g.ss]);
  }

  // On a cluster boundary within the file: the first cluster or the one after clust.
  method ReadCluster(fp: Fil, ghost j: nat)
    requires fp.Core() && PositionAt(fp, fp.fptr) && OffsetIn(fp.fs.g.ss, fp.fptr) == 0
    requires j == SectorOf(fp.fs.g.ss, fp.fptr)
    requires 0 < fp.fs.g.csize && j % fp.fs.g.csize == 0 && (fp.fptr == 0 <==> j == 0) && j < Room(fp.fs.g, fp.chain)
    modifies fp.fs`disk, fp.fs`wflag, fp.fs`winsect, fp.fs.win, fp`clust
    ensures fp.Core() && fp.fs.Synced() == old(fp.fs.Synced()) && fp.View() == old(fp.View())
    ensures fp.clust == ClusterAt(fp.fs.g, fp.chain, j)
  {
    hide Geometry.Valid, FatFs.Valid, FatFs.Synced, Fat, ValidDisk, Forest, Chain, SectAt, Entries, Owns, Secs,
         Clusters, BufferOk, OnlyMine, SectorOf, OffsetIn;
    ghost var g := fp.fs.g;
    Boundary(g, fp.chain, j);
    SectPlace(g, fp.chain, j);
    var clst;
    if fp.fptr == 0 {
      clst := fp.sclust;
    } else {
      clst := Follow(fp, j / g.csize - 1);
    }
    fp.clust := clst;
  }

  method ReadStep(fp: Fil, rbuff: array<byte>, at: nat, btr: nat) returns (rcnt: nat)
    requires fp.Core() && PositionAt(fp, fp.fptr) && 0 < btr && at + btr <= rbuff.Length
    requires rbuff != fp.buf && rbuff != fp.fs.win && fp.fptr + btr <= |FileBytes(fp)|
    modifies fp.fs`disk, fp.fs`wflag, fp.fs`winsect, fp.fs.win, fp`clust, fp`dsect, fp`dirty, fp.buf, rbuff
    ensures fp.Core() && FileBytes(fp) == old(FileBytes(fp)) && 0 < rcnt <= btr
    ensures OnlyMine(fp.fs.g, fp.chain, old(fp.fs.Synced()), fp.fs.Synced()) && Entries(fp.fs) == old(Entries(fp.fs))
    ensures PositionAt(fp, fp.fptr + rcnt)
    ensures rbuff[..at] == old(rbuff[..at]) && rbuff[at..at + rcnt] == FileBytes(fp)[fp.fptr..fp.fptr + rcnt]
  {
    hide Geometry.Valid, FatFs.Valid, FatFs.Synced, Fat, ValidDisk, FatStore, Forest, Chain, SectAt, Room, Owns,
         Secs, Clusters, BufferOk, OnlyMine, ClusterAt, SectorOf, OffsetIn, Part, Fil.View, Flat;
    var ss := fp.fs.g.ss;
    CSizePositive(fp);
    PlaceOf(ss, fp.fptr);
    Unchanged(fp);
    ghost var j, o := SectorOf(ss, fp.fptr), OffsetIn(ss, fp.fptr);
    InsideRoom(ss, Room(fp.fs.g, fp.chain), fp.fptr);
    if OffsetIn(ss, fp.fptr) == 0 {
      ZeroPlace(ss, fp.fptr);
      var csect, sect := NextSector(fp, j);
      if btr >= ss {
        rcnt := ReadDirect(fp, rbuff, at, btr, sect, csect, j);
        return;
      }
      if fp.dsect != sect {
        Flush(fp);
        OwnedSect(fp.fs.g, fp.chain, j);
        Load(fp, sect);
      }
    }
    rcnt := ReadBuffered(fp, rbuff, at, btr, j, o);
  }

  // The sector under a pointer at the start of one, in its cluster and on the disk.
  method NextSector(fp: Fil, ghost j: nat) returns (csect: nat, sect: nat)
    requires fp.Core() && PositionAt(fp, fp.fptr) && OffsetIn(fp.fs.g.ss, fp.fptr) == 0
    requires j == SectorOf(fp.fs.g.ss, fp.fptr) && 0 < fp.fs.g.csize && fp.fptr == j * fp.fs.g.ss
    requires j < Room(fp.fs.g, fp.chain)
    modifies fp.fs`disk, fp.fs`wflag, fp.fs`winsect, fp.fs.win, fp`clust
    ensures fp.Core() && fp.fs.Synced() == old(fp.fs.Synced()) && fp.View() == old(fp.View())
    ensures csect == j % fp.fs.g.csize && sect == SectAt(fp.fs.g, fp.chain, j)
    ensures fp.clust == ClusterAt(fp.fs.g, fp.chain, j)
  {
    hide Geometry.Valid, FatFs.Valid, FatFs.Synced, Fat, ValidDisk, Forest, Chain, SectAt, Room, Entries, Owns, Secs,
         Clusters, BufferOk, OnlyMine, ClusterAt, SectorOf, OffsetIn, Fil.View;
    csect := SectorOf(fp.fs.g.ss, fp.fptr) % fp.fs.g.csize;
    if csect == 0 {
      ReadCluster(fp, j);
    } else {
      NotFirst(fp.fs.g, fp.chain, j);
    }
    sect := Clust2Sect(fp.fs.g, fp.clust) + csect;
    SectOfClust(fp.fs.g, fp.chain, j);
  }

  method ReadBuffered(fp: Fil, rbuff: array<byte>, at: nat, btr: nat, ghost j: nat, ghost o: nat) returns (rcnt: nat)
    requires fp.Core() && 0 < btr && at + btr <= rbuff.Length && rbuff != fp.buf && rbuff != fp.fs.win
    requires 0 <= o < fp.fs.g.ss && fp.fptr == j * fp.fs.g.ss + o && j < Room(fp.fs.g, fp.chain)
    requires fp.dsect == SectAt(fp.fs.g, fp.chain, j) && fp.clust == ClusterAt(fp.fs.g, fp.chain, j)
    modifies rbuff
    ensures 0 < rcnt <= btr && PositionAt(fp, fp.fptr + rcnt) && fp.fptr + rcnt <= |FileBytes(fp)|
    ensures rbuff[..at] == old(rbuff[..at]) && rbuff[at..at + rcnt] == FileBytes(fp)[fp.fptr..fp.fptr + rcnt]
  {
    hide Geometry.Valid, FatFs.Valid, FatFs.Synced, Fat, ValidDisk, FatStore, Forest, Chain, SectAt, Room, Owns,
         Secs, Clusters, BufferOk, ClusterAt, SectorOf, OffsetIn, Fil.View, Flat, FileBytes;
    var ss := fp.fs.g.ss;
    Place(ss, j, o);
    var at0 := OffsetIn(ss, fp.fptr);
    rcnt := ss - at0;
    if rcnt > btr { rcnt := btr; }
    BufferIsSector(fp, j, o, rcnt, fp.fptr);
    Copy(rbuff, at, fp.buf[at0..at0 + rcnt]);
    AfterPart(ss, j, o + rcnt);
  }

  lemma InsideRoom(ss: nat, room: nat, p: nat)
    requires 0 < ss && p < room * ss
    ensures SectorOf(ss, p) < room
  {
    DivBelow(p, room, ss);
  }

  // The buffer shows the sector it stands for.
  lemma BufferIsSector(fp: Fil, j: nat, o: nat, n: nat, p: nat)
    requires fp.Core() && j < Room(fp.fs.g, fp.chain) && fp.dsect == SectAt(fp.fs.g, fp.chain, j) && o + n <= fp.fs.g.ss
    requires p == j * fp.fs.g.ss + o
    ensures p + n <= |FileBytes(fp)| && fp.buf[o..o + n] == FileBytes(fp)[p..p + n]
  {
    hide Geometry.Valid, FatFs.Valid, FatFs.Synced, Fat, ValidDisk, Forest, Chain, SectAt, Room, Entries, Owns,
         Clusters, Flat, Secs;
    var ss := fp.fs.g.ss;
    Viewed(fp);
    BufferInView(fp, j);
    SectorSlice(ss, fp.View(), j, o, n, p);
    assert fp.buf[..ss][o..o + n] == fp.buf[o..o + n];
  }

  lemma SectorSlice(ss: nat, secs: seq<Sector>, j: nat, o: nat, n: nat, p: nat)
    requires Sized(ss, secs) && j < |secs| && o + n <= ss && p == j * ss + o
    ensures p + n <= |secs| * ss && secs[j][o..o + n] == Flat(ss, secs)[p..p + n]
  {
    MulStep(j, |secs|, ss);
    forall i | o <= i < o + n
      ensures secs[j][i] == Flat(ss, secs)[p + (i - o)]
    {
      FlatAt(ss, secs, j, i);
    }
  }

  lemma BufferInView(fp: Fil, j: nat)
    requires fp.Core() && j < Room(fp.fs.g, fp.chain) && fp.dsect == SectAt(fp.fs.g, fp.chain, j)
    ensures fp.View()[j] == fp.buf[..fp.fs.g.ss]
  {
    hide Geometry.Valid, FatFs.Valid, FatFs.Synced, Fat, ValidDisk, Forest, Chain, SectAt, Room, Entries, Owns,
         Clusters;
    CoreClusters(fp);
    SectInside(fp.fs.g, |fp.fs.disk|, fp.chain, j);
    assert fp.View()[j] == FileSector(fp.fs.g, fp.fs.Synced(), fp.chain, fp.dirty, fp.dsect, fp.buf[..fp.fs.g.ss], j);
  }

  // f_read: copies out the slice of the file at its pointer, clipped at the end
  // of the file, and moves the pointer behind it.
  method FRead(fp: Fil, rbuff: array<byte>, btr: nat) returns (res: FResult, br: nat)
    requires Valid(fp) && btr <= rbuff.Length && rbuff != fp.buf && rbuff != fp.fs.win
    modifies fp.fs`disk, fp.fs`wflag, fp.fs`winsect, fp.fs.win, fp`fptr, fp`clust, fp`dsect, fp`dirty, fp.buf, rbuff
    ensures Valid(fp) && Content(fp) == old(Content(fp)) && Entries(fp.fs) == old(Entries(fp.fs))
    ensures OnlyMine(fp.fs.g, fp.chain, old(fp.fs.Synced()), fp.fs.Synced())
    ensures res == if fp.canRead then FrOk else FrDenied
    ensures fp.fptr == old(fp.fptr) + br
    ensures br == if !fp.canRead then 0 else if btr > fp.fsize - old(fp.fptr) then fp.fsize - old(fp.fptr) else btr
    ensures rbuff[..br] == Content(fp)[old(fp.fptr)..old(fp.fptr) + br]
    ensures forall i :: 0 <= i < br ==> rbuff[i] == DriveOctet(fp, old(fp.fptr) + i)
  {
    hide Geometry.Valid, FatFs.Valid, FatFs.Synced, Fat, ValidDisk, FatStore, Forest, Chain, SectAt, Room, Entries,
         Owns, Secs, Clusters, BufferOk, OnlyMine, ClusterAt, SectorOf, OffsetIn, Part, Fil.View, Fil.Core, Flat,
         FileBytes, PositionAt, DriveOctet;
    ghost var f, p0 := FileBytes(fp), fp.fptr;
    br := 0;
    CoreValid(fp);
    Unchanged(fp);
    if !fp.canRead {
      return FrDenied, 0;
    }
    var want := btr;
    if want > fp.fsize - fp.fptr { want := fp.fsize - fp.fptr; }
    ReadAll(fp, rbuff, want);
    br := want;
    res := FrOk;
    assert f[..fp.fsize][p0..p0 + br] == f[p0..p0 + br];
    ContentOnDrive(fp);
    SameSlice(rbuff, Content(fp), p0, br);
  }

  lemma SameSlice(rbuff: array<byte>, f: seq<byte>, p: nat, n: nat)
    requires n <= rbuff.Length && p + n <= |f| && rbuff[..n] == f[p..p + n]
    ensures forall i :: 0 <= i < n ==> rbuff[i] == f[p + i]
  {
    forall i | 0 <= i < n ensures rbuff[i] == f[p + i] { assert rbuff[..n][i] == f[p..p + n][i]; }
  }

  // f_read's loop.
  method ReadAll(fp: Fil, rbuff: array<byte>, btr: nat)
    requires fp.Core() && PositionAt(fp, fp.fptr) && fp.fptr + btr <= |FileBytes(fp)|
    requires btr <= rbuff.Length && rbuff != fp.buf && rbuff != fp.fs.win
    modifies fp.fs`disk, fp.fs`wflag, fp.fs`winsect, fp.fs.win, fp`fptr, fp`clust, fp`dsect, fp`dirty, fp.buf, rbuff
    ensures fp.Core() && PositionAt(fp, fp.fptr) && FileBytes(fp) == old(FileBytes(fp)) && fp.fptr == old(fp.fptr) + btr
    ensures fp.fs.Valid() && Entries(fp.fs) == old(Entries(fp.fs))
    ensures OnlyMine(fp.fs.g, fp.chain, old(fp.fs.Synced()), fp.fs.Synced())
    ensures rbuff[..btr] == FileBytes(fp)[old(fp.fptr)..old(fp.fptr) + btr]
  {
    hide Geometry.Valid, FatFs.Valid, FatFs.Synced, Fat, ValidDisk, FatStore, Forest, Chain, SectAt, Room, Entries,
         Owns, Secs, Clusters, BufferOk, OnlyMine, ClusterAt, SectorOf, OffsetIn, Part, Fil.View, Fil.Core, Flat,
         FileBytes, PositionAt;
    ghost var f, p0 := FileBytes(fp), fp.fptr;
    var br := 0;
    CoreValid(fp);
    Unchanged(fp);
    while br < btr
      invariant fp.fs.Valid() && fp.Core() && PositionAt(fp, fp.fptr) && FileBytes(fp) == f
      invariant 0 <= br <= btr && fp.fptr == p0 + br
      invariant rbuff[..br] == f[p0..p0 + br] && Entries(fp.fs) == old(Entries(fp.fs))
      invariant OnlyMine(fp.fs.g, fp.chain, old(fp.fs.Synced()), fp.fs.Synced())
    {
      ghost var s1 := fp.fs.Synced();
      var rcnt := ReadStep(fp, rbuff, br, btr - br);
      CoreValid(fp);
      OnlyMineTwice(fp.fs.g, fp.chain, old(fp.fs.Synced()), s1, fp.fs.Synced());
      assert rbuff[..br + rcnt] == rbuff[..br] + rbuff[br..br + rcnt];
      assert f[p0..p0 + br] + f[p0 + br..p0 + br + rcnt] == f[p0..p0 + br + rcnt];
      fp.fptr, br := fp.fptr + rcnt, br + rcnt;
    }
  }
}
