// The volume geometry and the one-sector write-back window of FatFs
// (component/fatfs/ff.c, sync_window and move_window).
module FatVolume {
  import opened Bytes

  datatype FatType = Fat12 | Fat16 | Fat32

  type Sector = seq<byte>

  const NO_SECTOR: nat := 0xFFFF_FFFF

  // A directory entry, and the first octet of a deleted one.
  const SZ_DIRE := 32
  const DDEM := 0xE5

  // The fields of FATFS that mounting fixes.
  datatype Geometry = Geometry(
    fsType: FatType,
    ss: nat,         // bytes per sector
    csize: nat,      // sectors per cluster
    nFats: nat,      // FAT copies
    nFatent: nat,    // FAT entries: clusters + 2
    fsize: nat,      // sectors per FAT copy
    fatbase: nat,    // first FAT sector
    database: nat    // first data sector
  )
  {
    // Octets one FAT copy needs, as find_volume computes it.
    function FatBytesNeeded(): nat {
      match fsType
      case Fat12 => nFatent * 3 / 2 + nFatent % 2
      case Fat16 => nFatent * 2
      case Fat32 => nFatent * 4
    }

    // Octets one FAT copy has room for.
    function FatOctets(): nat {
      fsize * ss
    }

    // Sectors of all FAT copies together.
    function FatSectors(): nat {
      if nFats == 2 then fsize + fsize else fsize
    }

    // What find_volume accepts, on a drive of the given number of sectors.
    ghost predicate Valid(sectors: nat) {
      && sectors <= NO_SECTOR
      && (ss == 512 || ss == 1024 || ss == 2048 || ss == 4096)
      && (csize == 1 || csize == 2 || csize == 4 || csize == 8 || csize == 16 || csize == 32 || csize == 64
         || csize == 128)
      && (nFats == 1 || nFats == 2)
      && 2 < nFatent
      && (fsType == Fat12 ==> nFatent <= 0xFF7)
      && (fsType == Fat16 ==> nFatent <= 0xFFF7)
      && nFatent <= 0xFFF_FFFF
      && FatBytesNeeded() <= FatOctets()
      && 0 < fatbase
      && fatbase + FatSectors() <= database
      && database + (nFatent - 2) * csize <= sectors
    }

    predicate InFat(sector: nat) {
      fatbase <= sector < fatbase + fsize
    }

    // The FAT area with every copy of it.
    predicate InFatArea(sector: nat) {
      fatbase <= sector < fatbase + FatSectors()
    }
  }

  // Where octet k of an area is: how many sectors on, and where in that sector.
  function SectorOf(ss: nat, k: nat): nat
    requires 0 < ss
  {
    k / ss
  }

  function OffsetIn(ss: nat, k: nat): nat
    requires 0 < ss
  {
    k % ss
  }

  // A drive whose sectors all have the size the volume was mounted with.
  ghost predicate ValidDisk(g: Geometry, disk: seq<Sector>) {
    && g.Valid(|disk|)
    && forall s :: 0 <= s < |disk| ==> |disk[s]| == g.ss
  }

  // Writing one sector through sync_window: a FAT sector goes to every copy.
  function WriteBack(g: Geometry, disk: seq<Sector>, sector: nat, data: Sector): (r: seq<Sector>)
    requires sector < |disk|
    requires g.InFat(sector) && g.nFats == 2 ==> sector + g.fsize < |disk|
    ensures |r| == |disk|
    ensures forall s :: 0 <= s < |disk| ==>
      r[s] == if s == sector || (g.InFat(sector) && g.nFats == 2 && s == sector + g.fsize) then data else disk[s]
  {
    var once := disk[sector := data];
    if g.InFat(sector) && g.nFats == 2 then once[sector + g.fsize := data] else once
  }

  // Every FAT copy holds the same sectors.
  ghost predicate Mirrored(g: Geometry, disk: seq<Sector>)
    requires g.Valid(|disk|)
  {
    g.nFats == 2 ==> forall s: nat :: g.InFat(s) ==> disk[s] == disk[s + g.fsize]
  }

  // The octets of a boot sector and an FSINFO sector that mounting looks at.
  const BPB_FSINFO := 48
  const FSI_LEAD_SIG := 0
  const FSI_STRUC_SIG := 484
  const FSI_FREE_COUNT := 488
  const FSI_NXT_FREE := 492
  const BS_55AA := 510

  function WordAt(s: Sector, k: nat): nat
    requires k + 2 <= |s|
  {
    LdWord(s[k], s[k + 1])
  }

  function DwordAt(s: Sector, k: nat): nat
    requires k + 4 <= |s|
  {
    LdDword(s[k], s[k + 1], s[k + 2], s[k + 3])
  }

  // The boot sector announces an FSINFO sector behind it.
  predicate HasFsInfo(g: Geometry, boot: Sector)
    requires |boot| >= 512
  {
    g.fsType == Fat32 && WordAt(boot, BPB_FSINFO) == 1
  }

  predicate IsFsInfo(s: Sector)
    requires |s| >= 512
  {
    WordAt(s, BS_55AA) == 0xAA55 && DwordAt(s, FSI_LEAD_SIG) == 0x41615252 && DwordAt(s, FSI_STRUC_SIG) == 0x61417272
  }

  // The same in octets: the 16-bit number at 48 is 1; the sector carries "RRaA", "rrAa" and
  // 55 AA where they belong.
  ghost predicate FsInfoBehind(g: Geometry, boot: Sector)
    requires |boot| >= 512
  {
    g.fsType == Fat32 && boot[48] == 1 && boot[49] == 0
  }

  ghost predicate FsInfoMarks(s: Sector)
    requires |s| >= 512
  {
    && s[0..4] == [0x52, 0x52, 0x61, 0x41] && s[484..488] == [0x72, 0x72, 0x41, 0x61]
    && s[510] == 0x55 && s[511] == 0xAA
  }

  lemma FsInfoOctets(g: Geometry, s: Sector)
    requires |s| >= 512
    ensures HasFsInfo(g, s) <==> FsInfoBehind(g, s)
    ensures IsFsInfo(s) <==> FsInfoMarks(s)
    ensures DwordAt(s, FSI_FREE_COUNT) == Little(s[488..492]) && DwordAt(s, FSI_NXT_FREE) == Little(s[492..496])
  {
    hide LdWord, LdDword;
    LittleDword(s, 488);
    LittleDword(s, 492);
    DwordIs(s, 0, 0x52, 0x52, 0x61, 0x41);
    DwordIs(s, 484, 0x72, 0x72, 0x41, 0x61);
    Signatures();
    SameWord(s[510], s[511], 0x55, 0xAA);
    SameWord(s[48], s[49], 1, 0);
  }

  lemma Signatures()
    ensures LdDword(0x52, 0x52, 0x61, 0x41) == 0x41615252 && LdDword(0x72, 0x72, 0x41, 0x61) == 0x61417272
    ensures LdWord(0x55, 0xAA) == 0xAA55 && LdWord(1, 0) == 1
  {
  }

  lemma LittleDword(s: Sector, k: nat)
    requires k + 4 <= |s|
    ensures DwordAt(s, k) == Little(s[k..k + 4])
  {
    LittleFour(s[k..k + 4]);
  }

  lemma DwordIs(s: Sector, k: nat, b0: byte, b1: byte, b2: byte, b3: byte)
    requires k + 4 <= |s|
    ensures DwordAt(s, k) == LdDword(b0, b1, b2, b3) <==> s[k..k + 4] == [b0, b1, b2, b3]
  {
    hide LdDword;
    var o := s[k..k + 4];
    assert o == [s[k], s[k + 1], s[k + 2], s[k + 3]];
    if DwordAt(s, k) == LdDword(b0, b1, b2, b3) {
      SameDword(s[k], s[k + 1], s[k + 2], s[k + 3], b0, b1, b2, b3);
    }
  }

  class FatFs {
    const g: Geometry
    const win: array<byte>      // win[_MAX_SS]
    var disk: seq<Sector>       // what the drive holds
    var winsect: nat            // sector appearing in win
    var wflag: bool             // win is dirty
    var lastClust: nat          // last allocated cluster
    var freeClust: nat          // number of free clusters, 0xFFFFFFFF when unknown
    var fsiDirty: bool          // FSINFO is to be updated

    ghost predicate Valid()
      reads `disk, `wflag, `winsect, win
    {
      && win.Length == 4096 && 0 < g.ss <= 4096
      && ValidDisk(g, disk)
      && (winsect == NO_SECTOR || winsect < |disk|)
      && (wflag ==> winsect < |disk|)
      && (!wflag && winsect != NO_SECTOR ==> win[..g.ss] == disk[winsect])
    }

    // The drive as it will be once the window is flushed: what every read
    // through the window sees.
    ghost function Synced(): (r: seq<Sector>)
      requires Valid()
      reads `disk, `wflag, `winsect, win
      ensures |r| == |disk| && ValidDisk(g, r)
    {
      if wflag then WriteBack(g, disk, winsect, win[..g.ss]) else disk
    }

    // A freshly mounted volume: the clean window shows the boot sector or, if there is
    // one, the FSINFO sector behind it, from which the counts come; else they are unknown.
    constructor (g: Geometry, disk: seq<Sector>, bsect: nat)
      requires ValidDisk(g, disk) && bsect < g.fatbase
      ensures Valid() && !wflag && this.disk == disk == Synced() && this.g == g && fresh(win)
      ensures winsect == if FsInfoBehind(g, disk[bsect]) then bsect + 1 else bsect
      ensures (freeClust, lastClust) ==
        if winsect == bsect + 1 && FsInfoMarks(disk[winsect])
        then (Little(disk[winsect][488..492]), Little(disk[winsect][492..496])) else (0xFFFF_FFFF, 0xFFFF_FFFF)
    {
      hide HasFsInfo, IsFsInfo, FsInfoBehind, FsInfoMarks, DwordAt, Little, LdWord, LdDword;
      this.g := g;
      this.disk := disk;
      win := new byte[4096](i => 0);
      winsect := NO_SECTOR;
      wflag := false;
      lastClust, freeClust, fsiDirty := NO_SECTOR, NO_SECTOR, false;
      new;
      MoveWindow(this, bsect);
      assert win[..g.ss] == disk[bsect];
      FsInfoOctets(g, disk[bsect]);
      if HasFsInfo(g, win[..g.ss]) {
        MoveWindow(this, bsect + 1);
        var info := win[..g.ss];
        assert info == disk[bsect + 1];
        FsInfoOctets(g, info);
        if IsFsInfo(info) {
          freeClust := DwordAt(info, FSI_FREE_COUNT);
          lastClust := DwordAt(info, FSI_NXT_FREE);
        }
      }
      CleanView(this);
    }
  }

  lemma CleanView(fs: FatFs)
    requires fs.Valid() && !fs.wflag
    ensures fs.Synced() == fs.disk
  {
  }

  // Flushing leaves the drive exactly as the window's readers saw it.
  method SyncWindow(fs: FatFs)
    requires fs.Valid()
    modifies fs`disk, fs`wflag
    ensures fs.Valid() && !fs.wflag
    ensures fs.disk == fs.Synced() == old(fs.Synced())
    ensures old(fs.wflag) ==> forall s: nat :: s < |fs.disk| ==>
      var copy := fs.g.nFats == 2 && fs.g.fatbase <= fs.winsect < fs.g.fatbase + fs.g.fsize;
      fs.disk[s] == if s == fs.winsect || (copy && s == fs.winsect + fs.g.fsize) then fs.win[..fs.g.ss]
                    else old(fs.disk[s])
  {
    if fs.wflag {
      var wsect := fs.winsect;
      fs.disk := fs.disk[wsect := fs.win[..fs.g.ss]];
      fs.wflag := false;
      if fs.g.InFat(wsect) {
        var nf := fs.g.nFats;
        while nf >= 2
          invariant nf == 1 || nf == fs.g.nFats
          invariant wsect == fs.winsect + (fs.g.nFats - nf) * fs.g.fsize
          invariant fs.Valid() && !fs.wflag && fs.winsect == old(fs.winsect) && |fs.disk| == old(|fs.disk|)
          invariant fs.win[..fs.g.ss] == old(fs.win[..fs.g.ss])
          invariant fs.disk == if nf == 1 then old(fs.Synced()) else old(fs.disk)[fs.winsect := fs.win[..fs.g.ss]]
        {
          wsect := wsect + fs.g.fsize;
          fs.disk := fs.disk[wsect := fs.win[..fs.g.ss]];
          nf := nf - 1;
        }
      }
    }
  }

  // Moving the window changes nothing a reader can see.
  method MoveWindow(fs: FatFs, sector: nat)
    requires fs.Valid() && sector < |fs.disk|
    modifies fs`disk, fs`wflag, fs`winsect, fs.win
    ensures fs.Valid() && fs.winsect == sector
    ensures fs.Synced() == old(fs.Synced())
    ensures fs.win[..fs.g.ss] == fs.Synced()[sector]
    ensures !old(fs.wflag) ==> !fs.wflag && fs.disk == old(fs.disk)
  {
    if sector != fs.winsect {
      SyncWindow(fs);
      forall i | 0 <= i < fs.g.ss {
        fs.win[i] := fs.disk[sector][i];
      }
      fs.winsect := sector;
      assert fs.win[..fs.g.ss] == fs.disk[sector];
    }
  }
}
