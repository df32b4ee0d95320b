// Long names put into a directory on the volume (ff.c: dir_register).
module FatLongNames {
  import opened Bytes
  import opened FatVolume
  import opened FatEntries
  import opened FatChains
  import opened FatAlloc
  import opened FatSectors
  import opened FatFile
  import opened FatNames
  import opened FatDir

  // ---- Writing slots through the window ----

  // fit_lfn at the current slot, and the dirty mark.
  method FillPart(d: Dir, lfnbuf: array<unit16>, ord: nat, sum: byte, ghost name: seq<unit16>)
    requires d.Valid() && d.At(d.index) && IsName(name) && InBuffer(lfnbuf, name) && 0 < ord <= Last(name)
    modifies d.fs`disk, d.fs`wflag, d.fs`winsect, d.fs.win
    ensures d.Valid() && d.At(d.index) && d.index < |old(SlotsOf(d))| == |SlotsOf(d)|
    ensures SlotsOf(d) == old(SlotsOf(d))[d.index := SlotsOf(d)[d.index]]
    ensures PartBytes(SlotsOf(d)[d.index], name, ord, sum)
    ensures OnlyTable(d.fs.g, d.Sects(), old(d.fs.Synced()), d.fs.Synced()) && Entries(d.fs) == old(Entries(d.fs))
  {
    hide Geometry.Valid, Forest, Fat, PerSector, SectorOf, OffsetIn, Slots, Dir.Placed, Dir.Sects, IsName, InBuffer,
         IsPart, PartBytes, Last, Dir.At, OnlyTable, Dir.Valid, FatFs.Valid, FatFs.Synced, ValidDisk, WriteBack,
         GoodSects, Clusters;
    Mounted(d);
    Separate(d.fs.win, lfnbuf);
    Show(d);
    Shown(d);
    ghost var disk0, flag, was := d.fs.Synced(), d.fs.wflag, d.fs.win[..d.fs.g.ss];
    FitLfn(lfnbuf, d.fs.win, d.off, ord, sum, name);
    d.fs.wflag := true;
    PartSlot(d.fs.win, d.off, name, ord, sum);
    SlotStored(d, disk0, flag, was);
  }

  // What is known of the volume while the window shows the current slot.
  lemma Shown(d: Dir)
    requires d.Valid() && d.At(d.index) && d.fs.winsect == d.sect
    ensures d.sect < |d.fs.disk| && GoodSects(d.fs.g, |d.fs.disk|, d.Sects()) && !d.fs.g.InFat(d.sect)
    ensures 0 < d.fs.g.ss <= 4096 && PerSector(d.fs.g.ss) * SZ_DIRE == d.fs.g.ss && d.fs.win.Length == 4096
    ensures d.fs.Valid() && ValidDisk(d.fs.g, d.fs.Synced()) && ValidDisk(d.fs.g, d.fs.disk)
    ensures |d.fs.Synced()| == |d.fs.disk|
    ensures Forest(Fat(d.fs.g, d.fs.Synced()), All(d.chain, d.others)) && d.chain !in d.others && d.Placed()
    ensures Entries(d.fs) == Fat(d.fs.g, d.fs.Synced())
    ensures !d.fs.wflag ==> d.fs.disk[d.sect] == d.fs.win[..d.fs.g.ss]
    ensures d.fs.Synced()
            == if d.fs.wflag then WriteBack(d.fs.g, d.fs.disk, d.sect, d.fs.win[..d.fs.g.ss]) else d.fs.disk
  {
    hide Geometry.Valid, Forest, PerSector, SectorOf, OffsetIn, Slots, Dir.Placed, Dir.Sects, Fat;
    SectsGood(d);
    Start(d);
    SyncedSizes(d.fs);
    SectorNumber(d.fs.g, |d.fs.disk|);
    assert !d.fs.g.InFatArea(d.sect);
  }

  lemma SectorNumber(g: Geometry, sectors: nat)
    requires g.Valid(sectors)
    ensures sectors <= NO_SECTOR
  {
  }

  // The short entry at the current slot, and the dirty mark.
  method PutShort(d: Dir, fn: seq<byte>)
    requires d.Valid() && d.At(d.index) && |fn| == 12
    modifies d.fs`disk, d.fs`wflag, d.fs`winsect, d.fs.win
    ensures d.Valid() && d.At(d.index) && d.index < |old(SlotsOf(d))| == |SlotsOf(d)|
    ensures SlotsOf(d) == old(SlotsOf(d))[d.index := SlotsOf(d)[d.index]]
    ensures ShortEntry(SlotsOf(d)[d.index], fn)
    ensures OnlyTable(d.fs.g, d.Sects(), old(d.fs.Synced()), d.fs.Synced()) && Entries(d.fs) == old(Entries(d.fs))
  {
    hide Geometry.Valid, Forest, Fat, PerSector, SectorOf, OffsetIn, Slots, Dir.Placed, Dir.Sects, Dir.At, OnlyTable,
         Dir.Valid, FatFs.Valid, FatFs.Synced, ValidDisk, WriteBack, GoodSects, Clusters;
    Mounted(d);
    Show(d);
    Shown(d);
    ghost var disk0, flag, was := d.fs.Synced(), d.fs.wflag, d.fs.win[..d.fs.g.ss];
    FillShort(d.fs.win, d.off, fn);
    d.fs.wflag := true;
    SlotStored(d, disk0, flag, was);
  }

  // ---- dir_register ----

  lemma Mounted(d: Dir)
    requires d.Valid()
    ensures d.fs.Valid()
  {
  }

  // Between two tables only these slots differ.
  ghost predicate Elsewhere(t: seq<seq<byte>>, u: seq<seq<byte>>, from: nat, to: nat) {
    |u| == |t| && forall k :: 0 <= k < |t| && !(from <= k < to) ==> u[k] == t[k]
  }

  lemma PartMore(t: seq<seq<byte>>, u: seq<seq<byte>>, w: seq<seq<byte>>, start: nat, index: nat, n: nat,
                 name: seq<unit16>, sum: byte)
    requires Elsewhere(t, u, start, index) && index == start + n && Parts(u, start, name, sum, n) && index < |u|
    requires |w| == |u| && w == u[index := w[index]] && n < Last(name) && PartBytes(w[index], name, Last(name) - n, sum)
    ensures Elsewhere(t, w, start, index + 1) && Parts(w, start, name, sum, n + 1)
  {
    hide PartBytes, Last;
  }

  lemma NoParts(t: seq<seq<byte>>, start: nat, name: seq<unit16>, sum: byte)
    requires start <= |t|
    ensures Elsewhere(t, t, start, start) && Parts(t, start, name, sum, 0)
  {
  }

  // The short entry completes the name.
  lemma NameComplete(t: seq<seq<byte>>, u: seq<seq<byte>>, w: seq<seq<byte>>, start: nat, name: seq<unit16>,
                     fn: seq<byte>)
    requires |fn| == 12 && fn[0] != 0 && fn[0] != 0xE5 && fn[0] != 0x2E
    requires Elsewhere(t, u, start, start + Last(name)) && Parts(u, start, name, SumSfn(fn[..11]), Last(name))
    requires start + Last(name) < |u|
    requires |w| == |u| && w == u[start + Last(name) := w[start + Last(name)]]
    requires ShortEntry(w[start + Last(name)], fn)
    ensures Elsewhere(t, w, start, start + Last(name) + 1) && Registered(w, start, name)
  {
    hide PartBytes, Last, SumSfn;
    var o := w[start + Last(name)];
    assert o[0] == o[..11][0] == fn[..11][0];
  }

  // The loop of dir_register: the parts, last first, from the current slot on.
  method FillParts(d: Dir, lfnbuf: array<unit16>, sum: byte, ghost start: nat, ghost name: seq<unit16>)
    requires d.Valid() && d.At(start) && IsName(name) && InBuffer(lfnbuf, name)
    requires start + Last(name) < |SlotsOf(d)| && start + Last(name) < 0x1_0000
    modifies d`index, d`clust, d`sect, d`off, d`chain
    modifies d.fs`disk, d.fs`wflag, d.fs`winsect, d.fs`lastClust, d.fs`freeClust, d.fs`fsiDirty, d.fs.win
    ensures d.Valid() && d.At(start + Last(name)) && d.chain == old(d.chain)
    ensures Elsewhere(old(SlotsOf(d)), SlotsOf(d), start, start + Last(name))
    ensures Parts(SlotsOf(d), start, name, sum, Last(name))
    ensures OnlyTable(d.fs.g, d.Sects(), old(d.fs.Synced()), d.fs.Synced()) && Entries(d.fs) == old(Entries(d.fs))
    ensures old(CountRight(d.fs)) ==> CountRight(d.fs)
  {
    hide Dir.At, IsName, InBuffer, PartBytes, Last, SlotsOf, Parts, Elsewhere, OnlyTable, FatFs.Synced, FatFs.Valid,
         Forest, Fat, Free;
    LastPositive(name);
    AtIndex(d, start);
    var nent := LastOf(lfnbuf, name);
    ghost var t, disk0, sects := SlotsOf(d), d.fs.Synced(), d.Sects();
    NoParts(t, start, name, sum);
    NothingElse(d.fs.g, sects, disk0);
    while nent > 0
      invariant 0 <= nent <= Last(name) && d.Valid() && d.At(d.index) && d.index == start + (Last(name) - nent)
      invariant Elsewhere(t, SlotsOf(d), start, d.index) && Parts(SlotsOf(d), start, name, sum, Last(name) - nent)
      invariant d.chain == old(d.chain) && OnlyTable(d.fs.g, sects, disk0, d.fs.Synced())
      invariant Entries(d.fs) == old(Entries(d.fs))
      invariant |SlotsOf(d)| == |t|
      invariant old(CountRight(d.fs)) ==> CountRight(d.fs)
      decreases nent
    {
      ghost var u, mid := SlotsOf(d), d.fs.Synced();
      FillPart(d, lfnbuf, nent, sum, name);
      PartMore(t, u, SlotsOf(d), start, d.index, Last(name) - nent, name, sum);
      TableTwice(d.fs.g, sects, disk0, mid, d.fs.Synced());
      ghost var i := d.index;
      var res := DirNext(d, false);
      AtIndex(d, i + 1);
      nent := nent - 1;
    }
  }

  lemma NothingElse(g: Geometry, sects: seq<nat>, disk: seq<Sector>)
    ensures OnlyTable(g, sects, disk, disk)
  {
  }

  lemma TableTwice(g: Geometry, sects: seq<nat>, a: seq<Sector>, b: seq<Sector>, c: seq<Sector>)
    requires OnlyTable(g, sects, a, b) && OnlyTable(g, sects, b, c)
    ensures OnlyTable(g, sects, a, c)
  {
  }

  // The number of parts, from the length of the name in the buffer.
  method LastOf(lfnbuf: array<unit16>, ghost name: seq<unit16>) returns (nent: nat)
    requires IsName(name) && InBuffer(lfnbuf, name)
    ensures nent == Last(name)
  {
    hide IsName, InBuffer, Last;
    LastPositive(name);
    var n := 0;
    while Unit(lfnbuf, n, name) != 0
      invariant n <= |name|
      decreases |name| - n
    {
      n := n + 1;
    }
    nent := (n + 25) / 13 - 1;
  }

  // Slots a name takes with its short entry.
  function Needed(name: seq<unit16>): nat {
    Last(name) + 1
  }

  // What registering leaves: the name in the first run of free slots long enough, zeros
  // where the table has grown, and all other slots as they were.
  ghost predicate Placed(t: seq<seq<byte>>, u: seq<seq<byte>>, start: nat, name: seq<unit16>) {
    var last := start + Last(name);
    && |t| <= |u| && Registered(u, start, name)
    && (forall k :: 0 <= k < |u| && !(start <= k <= last)
          ==> if k < |t| then u[k] == t[k] else |u[k]| == SZ_DIRE && Zeros(u[k]))
    && (forall k :: start <= k <= last && k < |t| ==> IsFree(t[k]))
    && NoRunBefore(t, last, Needed(name))
  }

  lemma NowPlaced(t0: seq<seq<byte>>, t1: seq<seq<byte>>, u: seq<seq<byte>>, start: nat, name: seq<unit16>)
    requires MoreSlots(t0, t1) && FreeRun(t1, start + Last(name), Needed(name))
    requires NoRunBefore(t1, start + Last(name), Needed(name))
    requires Elsewhere(t1, u, start, start + Last(name) + 1) && Registered(u, start, name)
    ensures Placed(t0, u, start, name)
  {
    hide Registered, Last, Zeros, IsFree;
    var last := start + Last(name);
    forall e: nat | e < last ensures !FreeRun(t0, e, Needed(name)) { RunKept(t0, t1, e, Needed(name)); }
  }

  lemma RunKept(t: seq<seq<byte>>, u: seq<seq<byte>>, e: nat, nent: nat)
    requires t <= u
    ensures FreeRun(t, e, nent) ==> FreeRun(u, e, nent)
  {
  }

  // dir_register for a long name and its short entry `fn`, flags behind the eleven
  // characters.
  method DirRegister(d: Dir, lfnbuf: array<unit16>, fn: seq<byte>, ghost name: seq<unit16>)
    returns (res: DirResult, ghost start: nat)
    requires d.Valid() && IsName(name) && InBuffer(lfnbuf, name)
    requires |fn| == 12 && fn[0] != 0 && fn[0] != 0xE5 && fn[0] != 0x2E
    modifies d`index, d`clust, d`sect, d`off, d`chain
    modifies d.fs`disk, d.fs`wflag, d.fs`winsect, d.fs`lastClust, d.fs`freeClust, d.fs`fsiDirty, d.fs.win
    ensures d.Valid() && old(d.chain) <= d.chain && OnlyTable(d.fs.g, d.Sects(), old(d.fs.Synced()), d.fs.Synced())
    ensures res == DirOk
            ==> start + Last(name) < 0x1_0000 && d.At(start + Last(name))
                && Placed(old(SlotsOf(d)), SlotsOf(d), start, name) && ShortEntry(SlotsOf(d)[start + Last(name)], fn)
    ensures res == DirOk || res == DirIntErr || res == DirDenied
    ensures res == DirIntErr <==> old(SlotsOf(d)) == []
    ensures res == DirDenied ==> MoreSlots(old(SlotsOf(d)), SlotsOf(d))
    ensures res == DirDenied ==> |SlotsOf(d)| >= 0x1_0000 || d.Static() || NoFree(Entries(d.fs))
    ensures res == DirDenied
            ==> NoRunBefore(SlotsOf(d), if |SlotsOf(d)| < 0x1_0000 then |SlotsOf(d)| else 0x1_0000, Needed(name))
    ensures old(CountRight(d.fs)) ==> CountRight(d.fs)
  {
    hide Dir.At, IsName, InBuffer, PartBytes, Last, SlotsOf, Parts, Elsewhere, OnlyTable, FatFs.Synced, FatFs.Valid,
         Forest, Fat, Free, FreeRun, NoRunBefore, MoreSlots, Registered, FatDir.Progress, NoFree, SumSfn, IsFree,
         Zeros, Dir.Valid, Dir.Sects, Placed, ShortEntry;
    Mounted(d);
    LastPositive(name);
    start := 0;
    var nent := LastOf(lfnbuf, name);
    nent := nent + 1;
    ghost var t0, disk0 := SlotsOf(d), d.fs.Synced();
    res := DirAlloc(d, nent);
    Mounted(d);
    ghost var t1, disk1, sects := SlotsOf(d), d.fs.Synced(), d.Sects();
    ProgressMeans(d.fs.g, t0, disk0, t1, sects, disk1);
    if res != DirOk {
      return;
    }
    RunInside(d, t1, d.index, nent);
    start := d.index - (nent - 1);
    res := DirSdi(d, d.index - (nent - 1));
    var sum := ComputeSum(fn);
    FillParts(d, lfnbuf, sum, start, name);
    Mounted(d);
    ghost var u, disk2 := SlotsOf(d), d.fs.Synced();
    AtIndex(d, start + Last(name));
    PutShort(d, fn);
    Mounted(d);
    NameComplete(t1, u, SlotsOf(d), start, name, fn);
    NowPlaced(t0, t1, SlotsOf(d), start, name);
    TableTwice(d.fs.g, sects, disk1, disk2, d.fs.Synced());
    TableTwice(d.fs.g, sects, disk0, disk1, d.fs.Synced());
  }

  lemma ProgressMeans(g: Geometry, t0: seq<seq<byte>>, disk0: seq<Sector>, t: seq<seq<byte>>, sects: seq<nat>,
                      disk: seq<Sector>)
    requires FatDir.Progress(g, t0, disk0, t, sects, disk)
    ensures MoreSlots(t0, t) && OnlyTable(g, sects, disk0, disk)
  {
  }

  lemma RunInside(d: Dir, t: seq<seq<byte>>, last: nat, nent: nat)
    requires FreeRun(t, last, nent) && nent > 0 && d.At(last)
    ensures nent - 1 <= last < |t| && last < 0x1_0000
  {
  }
}
