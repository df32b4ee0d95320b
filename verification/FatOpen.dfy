// From a mounted volume to files and back: what opening leaves (ff.c: f_open), and writing,
// seeking and reading together.
module FatOpen {
  import opened Bytes
  import opened FatVolume
  import opened FatEntries
  import opened FatChains
  import opened FatAlloc
  import opened FatSectors
  import opened FatFile
  import opened FatFileOps
  import opened FatFileRead
  import opened FatFileSeek

  // The bytes of a chain's clusters on the drive.
  ghost function ChainBytes(g: Geometry, disk: seq<Sector>, chain: seq<nat>): seq<byte>
    requires ValidDisk(g, disk) && Clusters(g, chain)
  {
    FileSectorSize(g, disk, chain, false, 0, seq(g.ss, _ => 0));
    Flat(g.ss, Secs(g, disk, chain, false, 0, seq(g.ss, _ => 0)))
  }

  // The end of f_open: the file of a directory entry is as many bytes of its chain as the
  // entry says.
  method Open(fs: FatFs, canRead: bool, canWrite: bool, sclust: nat, fsize: nat, ghost chain: seq<nat>,
              ghost others: set<seq<nat>>)
    returns (fp: Fil)
    requires fs.Valid() && Forest(Entries(fs), All(chain, others)) && chain !in others && Clusters(fs.g, chain)
    requires sclust == (if chain == [] then 0 else chain[0]) && !Owns(fs.g, chain, fs.winsect)
    requires fsize <= Room(fs.g, chain) * fs.g.ss && fsize < 0x1_0000_0000
    ensures fresh(fp) && fresh(fp.buf) && fp.fs == fs && fp.chain == chain && fp.others == others
    ensures fp.canRead == canRead && fp.canWrite == canWrite && fp.fptr == 0
    ensures Valid(fp) && ValidDisk(fs.g, fs.Synced()) && Content(fp) == ChainBytes(fs.g, fs.Synced(), chain)[..fsize]
  {
    hide Forest, Owns, Room, Geometry.Valid, Entries, FileSector, Clusters, PositionAt;
    fp := new Fil(fs, canRead, canWrite, sclust, fsize, chain, others);
    Opened(fp);
    CoreValid(fp);
    Clean(fs.g, fs.Synced(), chain, 0, fp.buf[..fs.g.ss]);
  }

  // A buffer that is not dirty makes no difference.
  lemma Clean(g: Geometry, disk: seq<Sector>, chain: seq<nat>, dsect: nat, buf: Sector)
    ensures Secs(g, disk, chain, false, dsect, buf) == Secs(g, disk, chain, false, 0, seq(g.ss, _ => 0))
  {
    hide SectAt, Room;
  }

  // A volume with no cluster taken holds no chains.
  lemma EmptyForest(fat: Table)
    requires forall k: nat :: InRange(fat, k) ==> fat[k] == 0
    ensures Forest(fat, {})
  {
  }

  lemma BehindBoot(fs: FatFs, bsect: nat)
    requires fs.g.Valid(|fs.disk|) && bsect < fs.g.fatbase && fs.winsect <= bsect + 1
    ensures !Owns(fs.g, [], fs.winsect) && Room(fs.g, []) == 0 && Clusters(fs.g, [])
  {
  }

  // The first file on an empty volume, from the mount on.
  method FirstFile(g: Geometry, disk: seq<Sector>, bsect: nat) returns (fp: Fil)
    requires ValidDisk(g, disk) && bsect < g.fatbase && forall k: nat :: 2 <= k < g.nFatent ==> Fat(g, disk)[k] == 0
    ensures fresh(fp) && fresh(fp.buf) && fresh(fp.fs) && fresh(fp.fs.win)
    ensures Valid(fp) && Content(fp) == [] && fp.canRead && fp.canWrite && fp.fs.g == g && fp.others == {}
  {
    hide Forest, Owns, Room, Geometry.Valid, Clusters, PositionAt, ValidDisk, FsInfoBehind, FsInfoMarks, Little, Fat;
    var fs := new FatFs(g, disk, bsect);
    DiskGeometry(fs);
    BehindBoot(fs, bsect);
    EmptyForest(Entries(fs));
    fp := Open(fs, true, true, 0, 0, [], {});
  }

  lemma DiskGeometry(fs: FatFs)
    requires fs.Valid()
    ensures fs.g.Valid(|fs.disk|) && ValidDisk(fs.g, fs.disk)
  {
  }

  // A position in the file lies inside its clusters, which seeking never leaves.
  lemma SeekInside(fp: Fil)
    requires Valid(fp)
    ensures fp.fs.Valid() && fp.fsize <= ClusterStart(fp.fs.g, |fp.chain|)
    ensures Forest(Entries(fp.fs), All(fp.chain, fp.others))
  {
    hide FileBytes, Forest;
    BytesAreClusters(fp);
  }

  // Where no cluster is free, none becomes free while the chains last.
  lemma StillFull(fat: Table, after: Table, chain: seq<nat>, longer: seq<nat>, others: set<seq<nat>>)
    requires Forest(fat, All(chain, others)) && Forest(after, All(longer, others)) && chain <= longer
    requires |after| == |fat|
    ensures NoFree(fat) ==> NoFree(after)
  {
    hide Chain;
    if NoFree(fat) {
      forall k | 2 <= k < |after| ensures after[k] != 0 {
        assert InRange(fat, k);
        var c :| c in All(chain, others) && k in c;
        var d := if c in others then c else longer;
        assert k in d && d in All(longer, others);
        var i: nat :| i < |d| && d[i] == k;
        LinkAt(after, d, i);
      }
    }
  }

  // What is written at the pointer is read back from there; all is written as long as a
  // cluster remains free.
  method WriteThenRead(fp: Fil, data: seq<byte>) returns (back: array<byte>, n: nat)
    requires Valid(fp) && fp.canRead && fp.canWrite && fp.fptr + |data| < 0x1_0000_0000
    modifies fp.fs, fp.fs.win, fp, fp.buf
    ensures Valid(fp) && n <= |data| == back.Length && back[..n] == data[..n]
    ensures fp.fs.Valid() && (n < |data| ==> NoFree(Entries(fp.fs)))
    ensures Content(fp) == Overlay(old(Content(fp)), old(fp.fptr), data[..n])
  {
    hide Valid, FileBytes, ClusterStart, ClusterBytes, OnlyMine, Entries, NoFree, FatFs.Valid, FatFs.Synced, Forest,
         All, Content, CountRight;
    var p := fp.fptr;
    PointerInside(fp);
    back := new byte[|data|](i => 0);
    var res;
    res, n := FWrite(fp, data);
    ghost var f, chain := Content(fp), fp.chain;
    SeekInside(fp);
    ghost var fat := Entries(fp.fs);
    FLseek(fp, p);
    SeekInside(fp);
    StillFull(fat, Entries(fp.fs), chain, fp.chain, fp.others);
    assert Content(fp) == f;
    var br;
    res, br := FRead(fp, back, n);
    SeekInside(fp);
    assert f[p..p + n] == data[..n];
  }

  lemma PointerInside(fp: Fil)
    requires Valid(fp)
    ensures fp.fptr <= fp.fsize == |Content(fp)| && fp.buf != fp.fs.win
  {
    hide FileBytes, PositionAt;
  }
}
