// The open file (ff.c: f_read, f_write, f_lseek, f_truncate): a byte string kept
// in a chain of clusters and one private sector buffer.
module FatFile {
  import opened Arith
  import opened Bytes
  import opened FatVolume
  import opened FatEntries
  import opened FatChains
  import opened FatAlloc
  import opened FatSectors

  ghost predicate Owns(g: Geometry, chain: seq<nat>, s: nat) {
    exists j: nat :: j < Room(g, chain) && SectAt(g, chain, j) == s
  }

  // The j-th sector of the file: the private buffer overlays the drive while dirty.
  ghost function FileSector(g: Geometry, disk: seq<Sector>, chain: seq<nat>, dirty: bool, dsect: nat, buf: Sector,
                            j: nat): Sector {
    var s := SectAt(g, chain, j);
    if dirty && dsect == s then buf else if s < |disk| then disk[s] else []
  }

  ghost function Secs(g: Geometry, disk: seq<Sector>, chain: seq<nat>, dirty: bool, dsect: nat,
                      buf: Sector): (r: seq<Sector>)
    ensures |r| == Room(g, chain)
  {
    seq(Room(g, chain), j requires 0 <= j < Room(g, chain) => FileSector(g, disk, chain, dirty, dsect, buf, j))
  }

  // What the buffer holds and where it may go; the window stays off the file's sectors.
  ghost predicate BufferOk(g: Geometry, disk: seq<Sector>, winsect: nat, chain: seq<nat>, dirty: bool, dsect: nat,
                           buf: Sector) {
    && |buf| == g.ss
    && (dirty ==> Owns(g, chain, dsect))
    && (!dirty && dsect != 0 ==> g.database <= dsect < |disk| && disk[dsect] == buf && dsect != winsect)
    && !Owns(g, chain, winsect)
  }

  // No sector outside the FAT area changed, except sectors of this chain.
  ghost predicate OnlyMine(g: Geometry, chain: seq<nat>, before: seq<Sector>, after: seq<Sector>) {
    && |before| == |after|
    && forall s: nat :: s < |before| && !g.InFatArea(s) && !Owns(g, chain, s) ==> after[s] == before[s]
  }

  ghost function All(chain: seq<nat>, others: set<seq<nat>>): set<seq<nat>> {
    if chain == [] then others else others + {chain}
  }

  class Fil {
    const fs: FatFs
    const canRead: bool          // FA_READ
    const canWrite: bool         // FA_WRITE
    const buf: array<byte>       // private sector buffer
    var dirty: bool              // FA__DIRTY
    var written: bool            // FA__WRITTEN
    var fptr: nat
    var fsize: nat
    var sclust: nat              // first cluster, 0: none
    var clust: nat               // cluster of the byte before fptr
    var dsect: nat               // sector in buf, 0: none
    ghost var chain: seq<nat>            // the file's clusters
    ghost var others: set<seq<nat>>      // every other chain of the volume

    constructor (fs: FatFs, canRead: bool, canWrite: bool, sclust: nat, fsize: nat, ghost chain: seq<nat>,
                 ghost others: set<seq<nat>>)
      ensures this.fs == fs && this.canRead == canRead && this.canWrite == canWrite
      ensures this.sclust == sclust && this.fsize == fsize && fptr == 0 && dsect == 0 && !dirty && !written
      ensures this.chain == chain && this.others == others && fresh(buf) && buf.Length == 4096
    {
      this.fs, this.canRead, this.canWrite := fs, canRead, canWrite;
      this.sclust, this.fsize, this.chain, this.others := sclust, fsize, chain, others;
      buf := new byte[4096](i => 0);
      dirty, written, fptr, clust, dsect := false, false, 0, 0, 0;
    }

    ghost predicate Shape()
      reads fs`disk, fs`wflag, fs`winsect, fs.win
    {
      fs.Valid() && buf.Length == 4096 && buf != fs.win && 0 < fs.g.ss <= 4096
    }

    // All but the position.
    ghost predicate Core()
      reads `chain, `others, `sclust, `dirty, `dsect, buf, fs`disk, fs`wflag, fs`winsect, fs.win
    {
      && Shape()
      && Forest(Entries(fs), All(chain, others)) && chain !in others
      && sclust == (if chain == [] then 0 else chain[0])
      && BufferOk(fs.g, fs.Synced(), fs.winsect, chain, dirty, dsect, buf[..fs.g.ss])
    }

    // The file as an array of sectors, as many as its clusters have room for.
    ghost function View(): (r: seq<Sector>)
      requires Core()
      reads `chain, `others, `sclust, `dirty, `dsect, buf, fs`disk, fs`wflag, fs`winsect, fs.win
      ensures |r| == Room(fs.g, chain)
    {
      Secs(fs.g, fs.Synced(), chain, dirty, dsect, buf[..fs.g.ss])
    }
  }

  // ---- Consequences of the invariant ----

  lemma ForestClusters(g: Geometry, fat: Table, chain: seq<nat>, others: set<seq<nat>>)
    requires Forest(fat, All(chain, others)) && |fat| == g.nFatent
    ensures Clusters(g, chain)
  {
    hide Chain;
    if chain != [] {
      assert chain in All(chain, others);
      ChainInside(fat, chain);
      forall k | 0 <= k < |chain|
        ensures 2 <= chain[k] < g.nFatent
      {
        assert chain[k] in chain;
      }
      forall a, b | 0 <= a < b < |chain|
        ensures chain[a] != chain[b]
      {
        ChainDistinct(fat, chain, a, b);
      }
    }
  }

  lemma CoreClusters(fp: Fil)
    requires fp.Core()
    ensures Clusters(fp.fs.g, fp.chain) && fp.fs.g.Valid(|fp.fs.disk|) && |fp.fs.Synced()| == |fp.fs.disk|
    ensures ValidDisk(fp.fs.g, fp.fs.Synced())
  {
    hide Forest, BufferOk, Geometry.Valid, Clusters;
    ForestClusters(fp.fs.g, Entries(fp.fs), fp.chain, fp.others);
  }

  lemma OwnedInside(g: Geometry, sectors: nat, chain: seq<nat>, s: nat)
    requires g.Valid(sectors) && Clusters(g, chain) && Owns(g, chain, s)
    ensures 0 < s < sectors && g.database <= s && !g.InFatArea(s)
  {
    hide Geometry.Valid, Clusters, Room, SectAt;
    var j: nat :| j < Room(g, chain) && SectAt(g, chain, j) == s;
    SectInside(g, sectors, chain, j);
  }

  lemma DataBehindFat(g: Geometry, sectors: nat, s: nat)
    requires g.Valid(sectors)
    ensures g.database <= s ==> !g.InFatArea(s)
    ensures g.InFatArea(s) || g.InFat(s) ==> s < g.database
    ensures g.InFat(s) ==> g.InFatArea(s)
  {
  }

  lemma FileSectorSize(g: Geometry, disk: seq<Sector>, chain: seq<nat>, dirty: bool, dsect: nat, buf: Sector)
    requires ValidDisk(g, disk) && Clusters(g, chain) && |buf| == g.ss
    ensures Sized(g.ss, Secs(g, disk, chain, dirty, dsect, buf))
  {
    assert 0 < g.ss;
    assert forall s :: 0 <= s < |disk| ==> |disk[s]| == g.ss;
    hide Geometry.Valid, Clusters, Room, SectAt;
    forall j: nat | j < Room(g, chain)
      ensures |FileSector(g, disk, chain, dirty, dsect, buf, j)| == g.ss
    {
      SectInside(g, |disk|, chain, j);
    }
  }

  // What is on the drive is what the window's readers see, away from the window.
  lemma RawSector(fs: FatFs, s: nat)
    requires fs.Valid() && s < |fs.disk| && fs.g.database <= s && s != fs.winsect
    ensures fs.Synced()[s] == fs.disk[s]
  {
    DataBehindFat(fs.g, |fs.disk|, s);
    FatAreaBelow(fs.g, |fs.disk|);
  }

  // The table depends on the FAT sectors alone.
  lemma SameFatArea(g: Geometry, before: seq<Sector>, after: seq<Sector>)
    requires ValidDisk(g, before) && ValidDisk(g, after) && |before| == |after|
    requires forall s: nat :: g.InFat(s) && s < |before| ==> after[s] == before[s]
    ensures Fat(g, after) == Fat(g, before)
  {
    assert Octets(g, after) == Octets(g, before) by {
      forall k: nat | k < g.FatOctets()
        ensures Octets(g, after)[k] == Octets(g, before)[k]
      {
        OctetInside(g, k, |before|);
      }
    }
    assert forall c :: 0 <= c < g.nFatent ==> Fat(g, after)[c] == Fat(g, before)[c];
  }

  lemma SameFat(g: Geometry, before: seq<Sector>, after: seq<Sector>)
    requires ValidDisk(g, before) && ValidDisk(g, after) && |before| == |after|
    requires forall s: nat :: s < g.database ==> s < |before| && after[s] == before[s]
    ensures Fat(g, after) == Fat(g, before)
  {
    hide Geometry.Valid, Fat;
    forall s: nat | g.InFat(s) && s < |before| ensures after[s] == before[s] { DataBehindFat(g, |before|, s); }
    SameFatArea(g, before, after);
  }

  // ---- The drive ----

  // disk_write: one sector after the other.
  method WriteRun(fs: FatFs, sect: nat, data: seq<byte>, n: nat)
    requires 0 < fs.g.ss && |data| == n * fs.g.ss && sect + n <= |fs.disk|
    modifies fs`disk
    ensures |fs.disk| == old(|fs.disk|)
    ensures forall q: nat :: q < |fs.disk| ==>
      fs.disk[q] == if sect <= q < sect + n then Part(fs.g.ss, data, q - sect) else old(fs.disk[q])
  {
    ghost var raw := fs.disk;
    var i := 0;
    while i < n
      invariant 0 <= i <= n && |fs.disk| == |raw|
      invariant forall q: nat :: q < |raw| ==>
        fs.disk[q] == if sect <= q < sect + i then Part(fs.g.ss, data, q - sect) else raw[q]
    {
      PartAt(fs.g.ss, data, n, i);
      fs.disk := fs.disk[sect + i := data[i * fs.g.ss..i * fs.g.ss + fs.g.ss]];
      i := i + 1;
    }
  }

  // disk_write of whole sectors into the data area, past the window.
  method DiskWrite(fs: FatFs, sect: nat, data: seq<byte>, n: nat)
    requires fs.Valid() && |data| == n * fs.g.ss && fs.g.database <= sect && sect + n <= |fs.disk|
    requires !(sect <= fs.winsect < sect + n)
    modifies fs`disk
    ensures fs.Valid() && |fs.disk| == old(|fs.disk|) && |fs.Synced()| == |fs.disk|
    ensures forall q: nat :: q < |fs.disk| ==>
      fs.Synced()[q] == if sect <= q < sect + n then Part(fs.g.ss, data, q - sect) else old(fs.Synced()[q])
    ensures Entries(fs) == old(Entries(fs))
  {
    hide Part, Fat;
    ghost var before, raw := fs.Synced(), fs.disk;
    WriteRun(fs, sect, data, n);
    WrittenDrive(fs.g, raw, fs.disk, sect, data, n);
    FatAreaBelow(fs.g, |fs.disk|);
    DataBehindFat(fs.g, |fs.disk|, fs.winsect);
    SameFat(fs.g, before, fs.Synced());
  }

  lemma WrittenDrive(g: Geometry, raw: seq<Sector>, disk: seq<Sector>, sect: nat, data: seq<byte>, n: nat)
    requires ValidDisk(g, raw) && |disk| == |raw| && |data| == n * g.ss && sect + n <= |disk|
    requires forall q: nat :: q < |raw|
               ==> disk[q] == if sect <= q < sect + n then Part(g.ss, data, q - sect) else raw[q]
    ensures ValidDisk(g, disk)
  {
    forall q | 0 <= q < |disk|
      ensures |disk[q]| == g.ss
    {
      if sect <= q < sect + n { PartAt(g.ss, data, n, q - sect); }
    }
  }

  // ---- The private buffer ----

  lemma FlushedSecs(g: Geometry, disk: seq<Sector>, after: seq<Sector>, chain: seq<nat>, dsect: nat, buf: Sector)
    requires |after| == |disk| && dsect < |disk|
    requires forall s: nat :: s < |disk| ==> after[s] == if s == dsect then buf else disk[s]
    ensures Secs(g, after, chain, false, dsect, buf) == Secs(g, disk, chain, true, dsect, buf)
  {
    hide SectAt, Room;
    var a, b := Secs(g, after, chain, false, dsect, buf), Secs(g, disk, chain, true, dsect, buf);
    forall j: nat | j < Room(g, chain)
      ensures a[j] == b[j]
    {
      assert a[j] == FileSector(g, after, chain, false, dsect, buf, j);
      assert b[j] == FileSector(g, disk, chain, true, dsect, buf, j);
    }
  }

  // Writing the dirty buffer back changes nothing the file's reader sees.
  method Flush(fp: Fil)
    requires fp.Core()
    modifies fp`dirty, fp.fs`disk
    ensures fp.Core() && !fp.dirty && fp.View() == old(fp.View())
    ensures Entries(fp.fs) == old(Entries(fp.fs))
    ensures OnlyMine(fp.fs.g, fp.chain, old(fp.fs.Synced()), fp.fs.Synced())
  {
    hide Geometry.Valid, FatFs.Valid, FatFs.Synced, Fat, ValidDisk, Forest, Chain, SectAt, Room, Entries, Owns, Secs,
         Clusters;
    if fp.dirty {
      CoreClusters(fp);
      OwnedInside(fp.fs.g, |fp.fs.disk|, fp.chain, fp.dsect);
      var data := fp.buf[..fp.fs.g.ss];
      ghost var before := fp.fs.Synced();
      assert fp.dsect != fp.fs.winsect;
      DiskWrite(fp.fs, fp.dsect, data, 1);
      fp.dirty := false;
      WholePart(fp.fs.g.ss, data);
      FlushedSecs(fp.fs.g, before, fp.fs.Synced(), fp.chain, fp.dsect, data);
    }
  }

  lemma WholePart(ss: nat, data: seq<byte>)
    requires |data| == ss
    ensures Part(ss, data, 0) == data
  {
  }

  lemma LoadedSecs(g: Geometry, disk: seq<Sector>, chain: seq<nat>, d1: nat, b1: Sector, d2: nat, b2: Sector)
    ensures Secs(g, disk, chain, false, d1, b1) == Secs(g, disk, chain, false, d2, b2)
  {
    hide SectAt, Room;
    var a, b := Secs(g, disk, chain, false, d1, b1), Secs(g, disk, chain, false, d2, b2);
    forall j: nat | j < Room(g, chain)
      ensures a[j] == b[j]
    {
      assert a[j] == FileSector(g, disk, chain, false, d1, b1, j);
      assert b[j] == FileSector(g, disk, chain, false, d2, b2, j);
    }
  }

  // disk_read of one of the file's sectors into the clean buffer.
  method Load(fp: Fil, sect: nat)
    requires fp.Core() && !fp.dirty && Owns(fp.fs.g, fp.chain, sect)
    modifies fp`dsect, fp.buf
    ensures fp.Core() && fp.View() == old(fp.View()) && fp.dsect == sect
    ensures sect < |fp.fs.Synced()| && fp.buf[..fp.fs.g.ss] == fp.fs.Synced()[sect]
  {
    hide Geometry.Valid, FatFs.Valid, FatFs.Synced, Fat, Forest, Chain, SectAt, Room, Entries, Owns, Secs, Clusters;
    CoreClusters(fp);
    OwnedInside(fp.fs.g, |fp.fs.disk|, fp.chain, sect);
    RawSector(fp.fs, sect);
    ghost var d1, b1 := fp.dsect, fp.buf[..fp.fs.g.ss];
    forall i | 0 <= i < fp.fs.g.ss {
      fp.buf[i] := fp.fs.disk[sect][i];
    }
    fp.dsect := sect;
    assert fp.buf[..fp.fs.g.ss] == fp.fs.Synced()[sect];
    LoadedSecs(fp.fs.g, fp.fs.Synced(), fp.chain, d1, b1, sect, fp.buf[..fp.fs.g.ss]);
  }

  // ---- Following and stretching the chain ----

  ghost predicate NoFree(fat: Table) {
    forall k :: 2 <= k < |fat| ==> fat[k] != 0
  }

  lemma GrowForest(fat: Table, chain: seq<nat>, others: set<seq<nat>>, ncl: nat, eoc: nat)
    requires Forest(fat, All(chain, others)) && chain !in others && InRange(fat, ncl) && fat[ncl] == 0 && eoc >= |fat|
    ensures chain != [] ==> InRange(fat, chain[|chain| - 1])
    ensures
      var marked := fat[ncl := eoc];
      Forest(if chain == [] then marked else marked[chain[|chain| - 1] := ncl], All(chain + [ncl], others))
    ensures chain + [ncl] !in others && ncl !in chain
  {
    hide Chain;
    var all := All(chain, others);
    forall d | d in all
      ensures ncl !in d
    {
      FreeOutside(fat, d, ncl);
    }
    assert ncl in chain + [ncl];
    if chain == [] {
      NewChain(fat, all, ncl, eoc);
      assert chain + [ncl] == [ncl];
    } else {
      assert chain in all;
      ChainInside(fat, chain);
      assert chain[|chain| - 1] in chain;
      StretchedChain(fat, all, chain, ncl, eoc);
      assert all - {chain} + {chain + [ncl]} == All(chain + [ncl], others);
    }
  }

  lemma OwnsPrefix(g: Geometry, chain: seq<nat>, longer: seq<nat>, s: nat)
    requires chain <= longer && Owns(g, chain, s)
    ensures Owns(g, longer, s)
  {
    hide SectAt, Room;
    var j: nat :| j < Room(g, chain) && SectAt(g, chain, j) == s;
    SectPrefix(g, chain, longer, j);
  }

  // Growing the chain keeps the buffer where it belongs and every sector in place.
  lemma GrowBuffer(g: Geometry, before: seq<Sector>, after: seq<Sector>, w0: nat, w1: nat,
                   chain: seq<nat>, longer: seq<nat>, dirty: bool, dsect: nat, buf: Sector)
    requires ValidDisk(g, before) && FatStore(g, before, after)
    requires chain <= longer && Clusters(g, chain) && Clusters(g, longer)
    requires BufferOk(g, before, w0, chain, dirty, dsect, buf)
    requires g.InFat(w1) || (w1 == w0 && chain == longer)
    ensures BufferOk(g, after, w1, longer, dirty, dsect, buf)
    ensures Secs(g, before, chain, dirty, dsect, buf) <= Secs(g, after, longer, dirty, dsect, buf)
    ensures OnlyMine(g, longer, before, after)
  {
    assert g.Valid(|before|);
    assert forall s :: 0 <= s < |before| && !g.InFatArea(s) ==> after[s] == before[s];
    hide Geometry.Valid, FatStore, ValidDisk, Clusters, SectAt, Room;
    DataBehindFat(g, |before|, w1);
    DataBehindFat(g, |before|, dsect);
    if Owns(g, longer, w1) { OwnedInside(g, |before|, longer, w1); }
    if dirty { OwnsPrefix(g, chain, longer, dsect); }
    var a, b := Secs(g, before, chain, dirty, dsect, buf), Secs(g, after, longer, dirty, dsect, buf);
    forall j: nat | j < Room(g, chain)
      ensures j < Room(g, longer) && a[j] == b[j]
    {
      SectPrefix(g, chain, longer, j);
      SectInside(g, |before|, chain, j);
      assert a[j] == FileSector(g, before, chain, dirty, dsect, buf, j);
      assert b[j] == FileSector(g, after, longer, dirty, dsect, buf, j);
    }
    RoomPrefix(g, chain, longer);
  }

  lemma RoomPrefix(g: Geometry, chain: seq<nat>, longer: seq<nat>)
    requires chain <= longer
    ensures Room(g, chain) <= Room(g, longer)
  {
    if |chain| < |longer| { MulStep(|chain|, |longer|, g.csize); }
  }

  // Entry k of the file's own chain, as the table has it.
  lemma ChainEntry(fat: Table, chain: seq<nat>, others: set<seq<nat>>, k: nat)
    requires Forest(fat, All(chain, others)) && k < |chain|
    ensures InRange(fat, chain[k]) && chain[k] >= 2
    ensures if k + 1 < |chain| then fat[chain[k]] == chain[k + 1] && 2 <= chain[k + 1] < |fat|
              else fat[chain[k]] >= |fat|
  {
    assert chain in All(chain, others);
    LinkAt(fat, chain, k);
    if k + 1 < |chain| { LinkAt(fat, chain, k + 1); }
  }

  // In a forest of chains no entry holds the reserved value 1.
  lemma NoReserved(fat: Table, chains: set<seq<nat>>, k: nat)
    requires Forest(fat, chains) && InRange(fat, k)
    ensures fat[k] != 1
  {
    hide Chain;
    if fat[k] != 0 {
      var c :| c in chains && k in c;
      var i: nat :| i < |c| && c[i] == k;
      LinkAt(fat, c, i);
    }
  }

  // The cluster after chain[k], or the first one: create_chain on the file's own chain.
  // 0 when the volume is full.
  method Grow(fp: Fil, clst: nat, ghost k: nat) returns (c: nat)
    requires fp.Core()
    requires if clst == 0 then fp.chain == [] else k < |fp.chain| && clst == fp.chain[k]
    modifies fp.fs, fp.fs.win, fp`chain, fp`sclust
    ensures fp.Core() && old(fp.chain) <= fp.chain && old(fp.View()) <= fp.View()
    ensures OnlyMine(fp.fs.g, fp.chain, old(fp.fs.Synced()), fp.fs.Synced())
    ensures c == 0 ==> fp.chain == old(fp.chain) && NoFree(Entries(fp.fs)) && (clst != 0 ==> k + 1 == |fp.chain|)
    ensures c != 0
            ==> var n := if clst == 0 then 0 else k + 1; n < |fp.chain| && c == fp.chain[n] && 2 <= c < fp.fs.g.nFatent
    ensures old(CountRight(fp.fs)) ==> CountRight(fp.fs)
  {
    hide Geometry.Valid, FatFs.Valid, FatFs.Synced, Fat, ValidDisk, FatStore, Forest, Chain, SectAt, Room, Entries,
         Owns, Secs, Clusters, BufferOk, OnlyMine, Free;
    ghost var fat := Entries(fp.fs);
    ghost var before, w0 := fp.fs.Synced(), fp.fs.winsect;
    CoreClusters(fp);
    Limits(fp.fs.g, |fp.fs.disk|);
    if clst != 0 { ChainEntry(fat, fp.chain, fp.others, k); }
    c := CreateChain(fp.fs, clst);
    if Allocates(fat, clst) {
      if c == 1 {
        var r :| 2 <= r < |fat| && fat[r] == 1;
        NoReserved(fat, All(fp.chain, fp.others), r);
        assert false;
      }
      if c != 0 {
        GrowForest(fat, fp.chain, fp.others, c, Eoc(fp.fs.g.fsType));
        fp.chain := fp.chain + [c];
        ForestClusters(fp.fs.g, Entries(fp.fs), fp.chain, fp.others);
      }
    }
    if clst == 0 { fp.sclust := c; }
    GrowBuffer(fp.fs.g, before, fp.fs.Synced(), w0, fp.fs.winsect, old(fp.chain), fp.chain, fp.dirty, fp.dsect,
               fp.buf[..fp.fs.g.ss]);
  }

  // ---- Writing into the file's sectors ----

  // Consecutive sectors of the file lie side by side within a cluster.
  lemma SectRun(g: Geometry, chain: seq<nat>, j: nat, n: nat)
    requires 0 < n && j < Room(g, chain) && j % g.csize + n <= g.csize
    ensures j + n <= Room(g, chain)
    ensures forall q: nat :: j <= q < j + n ==> SectAt(g, chain, q) == SectAt(g, chain, j) + (q - j)
  {
    hide SectAt, Room;
    forall q: nat | j <= q < j + n
      ensures q < Room(g, chain) && SectAt(g, chain, q) == SectAt(g, chain, j) + (q - j)
    {
      SectNext(g, chain, j, q - j);
    }
    assert j + (n - 1) < Room(g, chain) by { SectNext(g, chain, j, n - 1); }
  }

  // A direct write of n sectors, with the clean buffer refilled when it held one of them.
  lemma DirectSecs(g: Geometry, before: seq<Sector>, after: seq<Sector>, w: nat, chain: seq<nat>, dsect: nat,
                   b0: Sector, b1: Sector, j: nat, sect: nat, d: seq<byte>, n: nat)
    requires ValidDisk(g, before) && Clusters(g, chain) && |after| == |before| && |d| == n * g.ss && 0 < n
    requires j < Room(g, chain) && j % g.csize + n <= g.csize && sect == SectAt(g, chain, j)
    requires forall q: nat :: q < |before|
               ==> after[q] == if sect <= q < sect + n then Part(g.ss, d, q - sect) else before[q]
    requires BufferOk(g, before, w, chain, false, dsect, b0)
    requires b1 == if sect <= dsect < sect + n then Part(g.ss, d, dsect - sect) else b0
    ensures BufferOk(g, after, w, chain, false, dsect, b1)
    ensures j + n <= Room(g, chain)
    ensures forall q: nat :: q < Room(g, chain) ==>
      Secs(g, after, chain, false, dsect, b1)[q]
      == if j <= q < j + n then Part(g.ss, d, q - j) else Secs(g, before, chain, false, dsect, b0)[q]
    ensures OnlyMine(g, chain, before, after)
  {
    assert g.Valid(|before|) && 0 < g.ss;
    hide Geometry.Valid, ValidDisk, Clusters, SectAt, Room, Part;
    SectRun(g, chain, j, n);
    SectInside(g, |before|, chain, j);
    var a, b := Secs(g, after, chain, false, dsect, b1), Secs(g, before, chain, false, dsect, b0);
    forall q: nat | q < Room(g, chain)
      ensures a[q] == if j <= q < j + n then Part(g.ss, d, q - j) else b[q]
    {
      SectInside(g, |before|, chain, q);
      assert a[q] == FileSector(g, after, chain, false, dsect, b1, q);
      assert b[q] == FileSector(g, before, chain, false, dsect, b0, q);
      NotInRun(g, |before|, chain, j, n, q);
    }
    forall q: nat | sect <= q < sect + n
      ensures Owns(g, chain, q)
    {
      assert SectAt(g, chain, j + (q - sect)) == q;
    }
    if sect <= dsect < sect + n { PartAt(g.ss, d, n, dsect - sect); }
  }

  lemma NotInRun(g: Geometry, sectors: nat, chain: seq<nat>, j: nat, n: nat, q: nat)
    requires g.Valid(sectors) && Clusters(g, chain) && j + n <= Room(g, chain) && q < Room(g, chain)
    requires forall i: nat :: j <= i < j + n ==> SectAt(g, chain, i) == SectAt(g, chain, j) + (i - j)
    ensures SectAt(g, chain, j) <= SectAt(g, chain, q) < SectAt(g, chain, j) + n ==> j <= q < j + n
  {
    hide Geometry.Valid, Clusters, SectAt, Room;
    var s, t := SectAt(g, chain, j), SectAt(g, chain, q);
    if s <= t < s + n {
      var i := j + (t - s);
      assert SectAt(g, chain, i) == t;
      SectInjective(g, sectors, chain, i, q);
    }
  }

  method DirectWrite(fp: Fil, sect: nat, d: seq<byte>, cc: nat, ghost j: nat)
    requires fp.Core() && !fp.dirty && 0 < cc && |d| == cc * fp.fs.g.ss
    requires j < Room(fp.fs.g, fp.chain) && 0 < fp.fs.g.csize && j % fp.fs.g.csize + cc <= fp.fs.g.csize
    requires sect == SectAt(fp.fs.g, fp.chain, j)
    modifies fp.fs`disk, fp.buf
    ensures fp.Core() && j + cc <= |old(fp.View())| == |fp.View()|
    ensures forall q: nat :: q < |fp.View()| ==>
      fp.View()[q] == if j <= q < j + cc then Part(fp.fs.g.ss, d, q - j) else old(fp.View())[q]
    ensures OnlyMine(fp.fs.g, fp.chain, old(fp.fs.Synced()), fp.fs.Synced())
    ensures Entries(fp.fs) == old(Entries(fp.fs))
  {
    hide Geometry.Valid, FatFs.Valid, FatFs.Synced, Fat, ValidDisk, FatStore, Forest, Chain, SectAt, Room, Entries,
         Owns, Secs, Clusters, BufferOk, OnlyMine, Part;
    var g := fp.fs.g;
    ghost var before, b0 := fp.fs.Synced(), fp.buf[..g.ss];
    CoreClusters(fp);
    RunInside(fp, j, cc);
    DiskWrite(fp.fs, sect, d, cc);
    if sect <= fp.dsect < sect + cc {
      PartAt(g.ss, d, cc, fp.dsect - sect);
      var part := Part(g.ss, d, fp.dsect - sect);
      forall i | 0 <= i < g.ss {
        fp.buf[i] := part[i];
      }
      assert fp.buf[..g.ss] == part;
    }
    DirectSecs(g, before, fp.fs.Synced(), fp.fs.winsect, fp.chain, fp.dsect, b0, fp.buf[..g.ss], j, sect, d, cc);
  }

  lemma RunInside(fp: Fil, j: nat, n: nat)
    requires fp.Core() && 0 < n && j < Room(fp.fs.g, fp.chain) && 0 < fp.fs.g.csize
    requires j % fp.fs.g.csize + n <= fp.fs.g.csize
    ensures
      var sect := SectAt(fp.fs.g, fp.chain, j);
      fp.fs.g.database <= sect && 0 < sect && sect + n <= |fp.fs.disk| && !(sect <= fp.fs.winsect < sect + n)
  {
    hide Geometry.Valid, FatFs.Valid, FatFs.Synced, Fat, ValidDisk, Forest, Chain, SectAt, Room, Entries, Secs,
         Clusters;
    var g, chain := fp.fs.g, fp.chain;
    CoreClusters(fp);
    SectRun(g, chain, j, n);
    SectInside(g, |fp.fs.disk|, chain, j);
    SectInside(g, |fp.fs.disk|, chain, j + n - 1);
    var sect := SectAt(g, chain, j);
    if sect <= fp.fs.winsect < sect + n {
      RunOwned(g, chain, j, n, fp.fs.winsect);
    }
  }

  lemma RunOwned(g: Geometry, chain: seq<nat>, j: nat, n: nat, s: nat)
    requires j + n <= Room(g, chain) && SectAt(g, chain, j) <= s < SectAt(g, chain, j) + n
    requires forall q: nat :: j <= q < j + n ==> SectAt(g, chain, q) == SectAt(g, chain, j) + (q - j)
    ensures Owns(g, chain, s)
  {
    hide SectAt, Room;
    assert SectAt(g, chain, j + (s - SectAt(g, chain, j))) == s;
  }

  // ---- Writing into the buffer ----

  lemma PutSecs(g: Geometry, disk: seq<Sector>, w: nat, chain: seq<nat>, dirty: bool, d0: nat, b0: Sector,
                b1: Sector, j: nat)
    requires ValidDisk(g, disk) && Clusters(g, chain) && j < Room(g, chain) && |b1| == g.ss
    requires BufferOk(g, disk, w, chain, dirty, d0, b0)
    requires dirty ==> d0 == SectAt(g, chain, j)
    ensures BufferOk(g, disk, w, chain, true, SectAt(g, chain, j), b1)
    ensures forall q: nat :: q < Room(g, chain) ==>
      Secs(g, disk, chain, true, SectAt(g, chain, j), b1)[q]
      == if q == j then b1 else Secs(g, disk, chain, dirty, d0, b0)[q]
    ensures d0 == SectAt(g, chain, j) ==> Secs(g, disk, chain, dirty, d0, b0)[j] == b0
  {
    assert g.Valid(|disk|);
    hide Geometry.Valid, ValidDisk, Clusters, SectAt, Room;
    var s := SectAt(g, chain, j);
    SectInside(g, |disk|, chain, j);
    var a, b := Secs(g, disk, chain, true, s, b1), Secs(g, disk, chain, dirty, d0, b0);
    assert b[j] == FileSector(g, disk, chain, dirty, d0, b0, j);
    forall q: nat | q < Room(g, chain)
      ensures a[q] == if q == j then b1 else b[q]
    {
      SectInjective(g, |disk|, chain, q, j);
      assert a[q] == FileSector(g, disk, chain, true, s, b1, q);
      assert b[q] == FileSector(g, disk, chain, dirty, d0, b0, q);
    }
  }

  // mem_cpy into the buffer, which stands for sector j from now on and is dirty.
  method PutPartial(fp: Fil, sect: nat, o: nat, d: seq<byte>, ghost j: nat)
    requires fp.Core() && j < Room(fp.fs.g, fp.chain) && sect == SectAt(fp.fs.g, fp.chain, j)
    requires o + |d| <= fp.fs.g.ss
    requires fp.dirty ==> fp.dsect == sect
    modifies fp`dsect, fp`dirty, fp.buf
    ensures fp.Core() && fp.dirty && fp.dsect == sect && |fp.View()| == |old(fp.View())|
    ensures j < |fp.View()| && forall q: nat :: q < |fp.View()| && q != j ==> fp.View()[q] == old(fp.View())[q]
    ensures |fp.View()[j]| == fp.fs.g.ss && fp.View()[j][o..o + |d|] == d
    ensures old(fp.dsect) == sect ==> Patched(old(fp.View())[j], o, d, fp.View()[j])
  {
    hide Geometry.Valid, FatFs.Valid, FatFs.Synced, Fat, ValidDisk, FatStore, Forest, Chain, SectAt, Room, Entries,
         Owns, Secs, Clusters, BufferOk;
    var g := fp.fs.g;
    ghost var d0, b0, dirty0 := fp.dsect, fp.buf[..g.ss], fp.dirty;
    CoreClusters(fp);
    CoreBuffer(fp);
    fp.dsect := sect;
    forall i | o <= i < o + |d| {
      fp.buf[i] := d[i - o];
    }
    fp.dirty := true;
    ghost var b1 := fp.buf[..g.ss];
    assert forall i :: o <= i < o + |d| ==> b1[i] == fp.buf[i] == d[i - o];
    assert b1[o..o + |d|] == d;
    PutSecs(g, fp.fs.Synced(), fp.fs.winsect, fp.chain, dirty0, d0, b0, b1, j);
  }

  lemma CoreBuffer(fp: Fil)
    requires fp.Core()
    ensures BufferOk(fp.fs.g, fp.fs.Synced(), fp.fs.winsect, fp.chain, fp.dirty, fp.dsect, fp.buf[..fp.fs.g.ss])
  {
  }
}
