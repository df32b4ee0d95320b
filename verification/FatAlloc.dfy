// The cluster allocator (ff.c: create_chain, remove_chain, f_getfree's scan).
module FatAlloc {
  import opened Arith
  import opened Bytes
  import opened FatVolume
  import opened FatEntries
  import opened FatChains

  // The end mark create_chain stores, as it reads back.
  function Eoc(t: FatType): nat {
    Stored(t, 0xFFF_FFFF)
  }

  lemma Limits(g: Geometry, sectors: nat)
    requires g.Valid(sectors)
    ensures Eoc(g.fsType) >= g.nFatent
    ensures forall c: nat :: c < g.nFatent ==> c < 0x1000_0000 && Stored(g.fsType, c) == c
  {
    EocValue(g.fsType);
    EntryRange(g, sectors);
    forall c: nat | c < g.nFatent ensures c < 0x1000_0000 && Stored(g.fsType, c) == c { StoredWhole(g.fsType, c); }
  }

  lemma EocValue(t: FatType)
    ensures Eoc(t) == match t case Fat12 => 0xFFF case Fat16 => 0xFFFF case Fat32 => 0xFFF_FFFF
  {
  }

  lemma EntryRange(g: Geometry, sectors: nat)
    requires g.Valid(sectors)
    ensures g.nFatent <= match g.fsType case Fat12 => 0xFF7 case Fat16 => 0xFFF7 case Fat32 => 0xFFF_FFFF
  {
  }

  lemma StoredWhole(t: FatType, c: nat)
    requires c < match t case Fat12 => 0x1000 case Fat16 => 0x1_0000 case Fat32 => 0x1000_0000
    ensures Stored(t, c) == c
  {
  }

  // The volume's table, as every reader of it sees it.
  ghost function Entries(fs: FatFs): (fat: Table)
    requires fs.Valid()
    reads fs`disk, fs`wflag, fs`winsect, fs.win
    ensures |fat| == fs.g.nFatent
  {
    Fat(fs.g, fs.Synced())
  }

  // The free-cluster count is unknown or right.
  ghost predicate CountRight(fs: FatFs)
    requires fs.Valid()
    reads fs, fs.win
  {
    fs.freeClust == 0xFFFF_FFFF || fs.freeClust == Free(Entries(fs))
  }

  // 32-bit increment and decrement of the count.
  function Up(n: nat): nat { (n + 1) % 0x1_0000_0000 }
  function Down(n: nat): nat { (n + 0xFFFF_FFFF) % 0x1_0000_0000 }

  lemma OneLess(n: nat)
    ensures Down(n) == if n == 0 then 0xFFFF_FFFF else (n - 1) % 0x1_0000_0000
  {
  }

  lemma CountStep(fat: Table, k: nat, v: nat)
    requires InRange(fat, k) && |fat| <= 0x1000_0000
    ensures fat[k] != 0 && v == 0 ==> Up(Free(fat)) == Free(fat[k := v]) != NO_SECTOR
    ensures fat[k] == 0 && v != 0 ==> Down(Free(fat)) == Free(fat[k := v]) != NO_SECTOR
    ensures fat[k] != 0 && v != 0 ==> Free(fat) == Free(fat[k := v])
  {
    FreeUpdate(fat, k, v, |fat|);
    FreeBound(fat, |fat|);
    FreeBound(fat[k := v], |fat|);
  }

  // What allocation and freeing leave alone.
  twostate predicate OnlyFat(fs: FatFs)
    requires old(fs.Valid()) && fs.Valid()
    reads fs`disk, fs`wflag, fs`winsect, fs.win
  {
    && FatStore(fs.g, old(fs.Synced()), fs.Synced())
    && (fs.winsect == old(fs.winsect) || fs.g.InFat(fs.winsect))
  }

  // Freeing a chain: terminates on any table and frees what Removed says.
  method RemoveChain(fs: FatFs, clst: nat) returns (ok: bool)
    requires fs.Valid()
    modifies fs`disk, fs`wflag, fs`winsect, fs`freeClust, fs`fsiDirty, fs.win
    ensures fs.Valid() && OnlyFat(fs)
    ensures !(2 <= clst < fs.g.nFatent) ==> !ok && Entries(fs) == old(Entries(fs))
    ensures 2 <= clst < fs.g.nFatent ==>
      ok == RemoveOk(old(Entries(fs)), clst) && Entries(fs) == Removed(old(Entries(fs)), clst)
    ensures fs.fsiDirty == (old(fs.fsiDirty) || (old(fs.freeClust) != 0xFFFF_FFFF && Entries(fs) != old(Entries(fs))))
    ensures old(fs.freeClust) == 0xFFFF_FFFF ==> fs.freeClust == 0xFFFF_FFFF
    ensures old(CountRight(fs)) ==> CountRight(fs)
  {
    hide Geometry.Valid, FatFs.Valid, FatFs.Synced, Fat, FatStore, ValidDisk, Free, Up;
    if clst < 2 || clst >= fs.g.nFatent {
      Unmoved(fs);
      return false;
    }
    ghost var fat0 := Entries(fs);
    Sane(fs);
    Limits(fs.g, |fs.disk|);
    Small(fs);
    ok := true;
    var cl := clst;
    Unmoved(fs);
    while cl < fs.g.nFatent
      invariant fs.Valid() && OnlyFat(fs) && 2 <= cl
      invariant ok && RemoveOk(fat0, clst) == RemoveOk(Entries(fs), cl)
      invariant Removed(fat0, clst) == Removed(Entries(fs), cl)
      invariant old(CountRight(fs)) ==> CountRight(fs)
      invariant forall k :: 0 <= k < |fat0| ==> Entries(fs)[k] == fat0[k] || Entries(fs)[k] == 0
      invariant fs.fsiDirty == (old(fs.fsiDirty) || (old(fs.freeClust) != 0xFFFF_FFFF && Entries(fs) != fat0))
      invariant old(fs.freeClust) == 0xFFFF_FFFF || Entries(fs) == fat0 ==> fs.freeClust == old(fs.freeClust)
      decreases Used(Entries(fs))
    {
      ghost var fat := Entries(fs);
      label L:
      var nxt := GetFat(fs, cl);
      if nxt == 0 { break; }
      if nxt == 1 { ok := false; break; }
      UsedUpdate(fat, cl, 0);
      CountStep(fat, cl, 0);
      ghost var before := fs.Synced();
      ok := PutFat(fs, cl, 0);
      FatStoreTwice(fs.g, old(fs.Synced()), before, fs.Synced());
      assert Entries(fs) == fat[cl := 0];
      assert Entries(fs)[cl] != fat0[cl];
      if fs.freeClust != NO_SECTOR {
        fs.freeClust := Up(fs.freeClust);
        fs.fsiDirty := true;
      }
      cl := nxt;
    }
  }

  lemma Small(fs: FatFs)
    requires fs.Valid()
    ensures 2 < fs.g.nFatent <= 0x1000_0000
  {
  }

  twostate lemma Unmoved(fs: FatFs)
    requires old(fs.Valid()) && fs.Valid()
    requires fs.Synced() == old(fs.Synced()) && (fs.winsect == old(fs.winsect) || fs.g.InFat(fs.winsect))
    ensures OnlyFat(fs)
  {
  }

  // ---- create_chain ----

  // Where the circular search for a free cluster starts after.
  function SearchStart(fs: FatFs, clst: nat): nat
    reads fs`lastClust
  {
    if clst != 0 then clst
    else if fs.lastClust == 0 || fs.lastClust >= fs.g.nFatent then 1
    else fs.lastClust
  }

  // Clusters passed on the way from scl to ncl, going up and around.
  predicate Passed(n: nat, scl: nat, ncl: nat, k: nat) {
    if ncl > scl then scl < k < ncl else scl < k < n || 2 <= k < ncl
  }

  // create_chain has to look for a free cluster: the chain is new, or clst is its last cluster.
  ghost predicate Allocates(fat: Table, clst: nat) {
    clst == 0 || (InRange(fat, clst) && fat[clst] >= |fat|)
  }

  // create_chain(0) makes a chain of one cluster; create_chain(c) returns the
  // cluster that follows c, linking a free one there when c is the last.
  method CreateChain(fs: FatFs, clst: nat) returns (ncl: nat)
    requires fs.Valid()
    modifies fs`disk, fs`wflag, fs`winsect, fs`lastClust, fs`freeClust, fs`fsiDirty, fs.win
    ensures fs.Valid() && OnlyFat(fs)
    ensures
      var fat := old(Entries(fs));
      if !Allocates(fat, clst) then
        ncl == (if InRange(fat, clst) && fat[clst] != 0 then fat[clst] else 1) && Entries(fs) == fat
      else if ncl >= 2 then
        && InRange(fat, ncl) && fat[ncl] == 0
        && (forall k :: 2 <= k < |fat| && Passed(|fat|, old(SearchStart(fs, clst)), ncl, k) ==> fat[k] != 0)
        && Entries(fs) == (if clst == 0 then fat[ncl := Eoc(fs.g.fsType)]
           else fat[ncl := Eoc(fs.g.fsType)][clst := ncl])
        && fs.g.InFat(fs.winsect)
      else
        && Entries(fs) == fat
        && if ncl == 0 then forall k :: 2 <= k < |fat| ==> fat[k] != 0 else exists k :: 2 <= k < |fat| && fat[k] == 1
    ensures var took := ncl >= 2 && Allocates(old(Entries(fs)), clst);
      && fs.lastClust == (if took then ncl else old(fs.lastClust))
      && if took && old(fs.freeClust) != 0xFFFF_FFFF
         then fs.fsiDirty && fs.freeClust
             == if old(fs.freeClust) == 0 then 0xFFFF_FFFF else (old(fs.freeClust) - 1) % 0x1_0000_0000
         else fs.fsiDirty == old(fs.fsiDirty) && fs.freeClust == old(fs.freeClust)
    ensures old(CountRight(fs)) ==> CountRight(fs)
  {
    hide Geometry.Valid, FatFs.Valid, FatFs.Synced, Fat, FatStore, ValidDisk, Free, Down;
    var n := fs.g.nFatent;
    var scl;
    Small(fs);
    Unmoved(fs);
    if clst == 0 {
      scl := fs.lastClust;
      if scl == 0 || scl >= n { scl := 1; }
    } else {
      var cs := GetFat(fs, clst);
      Unmoved(fs);
      if cs < 2 { return 1; }
      if cs < n { return cs; }
      scl := clst;
    }
    ncl := FindFree(fs, scl);
    Unmoved(fs);
    if ncl >= 2 {
      Link(fs, clst, ncl);
      fs.lastClust := ncl;
      if fs.freeClust != NO_SECTOR {
        OneLess(fs.freeClust);
        fs.freeClust := Down(fs.freeClust);
        fs.fsiDirty := true;
      }
    }
  }

  // The circular search: 0 when it comes around to its start, 1 at a reserved entry.
  method FindFree(fs: FatFs, scl: nat) returns (ncl: nat)
    requires fs.Valid() && 1 <= scl < fs.g.nFatent
    modifies fs`disk, fs`wflag, fs`winsect, fs.win
    ensures fs.Valid() && fs.Synced() == old(fs.Synced())
    ensures fs.winsect == old(fs.winsect) || fs.g.InFat(fs.winsect)
    ensures
      var fat := Entries(fs);
      if ncl >= 2 then
        && InRange(fat, ncl) && fat[ncl] == 0
        && (forall k :: 2 <= k < |fat| && Passed(|fat|, scl, ncl, k) ==> fat[k] != 0)
      else if ncl == 0 then forall k :: 2 <= k < |fat| ==> fat[k] != 0
      else exists k :: 2 <= k < |fat| && fat[k] == 1
  {
    hide Geometry.Valid, FatFs.Valid, FatFs.Synced, Fat, FatStore, ValidDisk;
    Small(fs);
    var n := fs.g.nFatent;
    ghost var fat := Entries(fs);
    ghost var around := false;
    ncl := scl;
    while true
      invariant fs.Valid() && fs.Synced() == old(fs.Synced())
      invariant fs.winsect == old(fs.winsect) || fs.g.InFat(fs.winsect)
      invariant if around then 2 <= ncl < scl else scl <= ncl < n
      invariant forall k :: 2 <= k < n && ((scl < k && (around || k <= ncl)) || (around && k <= ncl)) ==> fat[k] != 0
      decreases if around then scl - ncl else n + n - ncl
    {
      ncl := ncl + 1;
      if ncl >= n {
        ncl := 2;
        around := true;
        if ncl > scl { return 0; }
      }
      var cs := GetFat(fs, ncl);
      if cs == 0 { return; }
      if cs == 1 {
        assert fat[ncl] == 1;
        return 1;
      }
      if ncl == scl { return 0; }
    }
  }

  // Marking the new cluster as the last link, and linking it behind clst.
  method Link(fs: FatFs, clst: nat, ncl: nat)
    requires fs.Valid() && InRange(Entries(fs), ncl) && Entries(fs)[ncl] == 0
    requires clst != 0 ==> InRange(Entries(fs), clst) && Entries(fs)[clst] != 0
    modifies fs`disk, fs`wflag, fs`winsect, fs.win
    ensures fs.Valid() && FatStore(fs.g, old(fs.Synced()), fs.Synced()) && fs.g.InFat(fs.winsect)
    ensures Entries(fs) ==
      if clst == 0 then old(Entries(fs))[ncl := Eoc(fs.g.fsType)]
      else old(Entries(fs))[ncl := Eoc(fs.g.fsType)][clst := ncl]
    ensures Down(Free(old(Entries(fs)))) == Free(Entries(fs)) != NO_SECTOR
  {
    hide Geometry.Valid, FatFs.Valid, FatFs.Synced, Fat, FatStore, ValidDisk, Free, Down;
    Sane(fs);
    Small(fs);
    Limits(fs.g, |fs.disk|);
    ghost var fat, before := Entries(fs), fs.Synced();
    CountStep(fat, ncl, Eoc(fs.g.fsType));
    var ok := PutFat(fs, ncl, 0xFFF_FFFF);
    if clst != 0 {
      ghost var between := fs.Synced();
      CountStep(Entries(fs), clst, ncl);
      ok := PutFat(fs, clst, ncl);
      FatStoreTwice(fs.g, before, between, fs.Synced());
    }
  }

  // ---- f_truncate's cut ----

  // An end mark at a cluster, and what followed it freed.
  method CutBehind(fs: FatFs, clst: nat)
    requires fs.Valid() && InRange(Entries(fs), clst) && Entries(fs)[clst] >= 2
    modifies fs`disk, fs`wflag, fs`winsect, fs`freeClust, fs`fsiDirty, fs.win
    ensures fs.Valid() && OnlyFat(fs)
    ensures var fat := old(Entries(fs));
      Entries(fs) == if fat[clst] < |fat| then Removed(fat[clst := Eoc(fs.g.fsType)], fat[clst]) else fat
    ensures old(CountRight(fs)) ==> CountRight(fs)
  {
    hide Geometry.Valid, FatFs.Valid, FatFs.Synced, Fat, ValidDisk, FatStore, Removed, RemoveOk, Free;
    ghost var fat, before := Entries(fs), fs.Synced();
    Sane(fs);
    Limits(fs.g, |fs.disk|);
    Small(fs);
    var ncl := GetFat(fs, clst);
    Unmoved(fs);
    if ncl < fs.g.nFatent {
      CountStep(fat, clst, Eoc(fs.g.fsType));
      var ok := PutFat(fs, clst, 0xFFF_FFFF);
      ghost var mid := fs.Synced();
      ok := RemoveChain(fs, ncl);
      FatStoreTwice(fs.g, before, mid, fs.Synced());
    }
  }

  // ---- f_getfree ----

  // Entries among the first m that read as zero, reserved ones included.
  function ZeroBelow(fat: Table, m: nat): nat
    requires m <= |fat|
  {
    if m == 0 then 0 else ZeroBelow(fat, m - 1) + (if fat[m - 1] == 0 then 1 else 0)
  }

  // The sector-wise count is the number of free clusters exactly when neither
  // reserved entry is zero.
  lemma {:induction false} ZeroIsFree(fat: Table, m: nat)
    requires 2 <= m <= |fat|
    ensures ZeroBelow(fat, m) == FreeBelow(fat, m) + (if fat[0] == 0 then 1 else 0) + (if fat[1] == 0 then 1 else 0)
  {
    if m > 2 {
      ZeroIsFree(fat, m - 1);
    } else {
      assert ZeroBelow(fat, 1) == if fat[0] == 0 then 1 else 0;
    }
  }

  // f_getfree: the stored count when it can be right, else a scan of the table.
  method GetFree(fs: FatFs) returns (ok: bool, nclst: nat)
    requires fs.Valid()
    modifies fs`disk, fs`wflag, fs`winsect, fs`freeClust, fs`fsiDirty, fs.win
    ensures fs.Valid() && fs.Synced() == old(fs.Synced())
    ensures old(fs.freeClust) <= fs.g.nFatent - 2 ==> ok && nclst == old(fs.freeClust) == fs.freeClust
    ensures fs.fsiDirty == (old(fs.fsiDirty) || old(fs.freeClust) > fs.g.nFatent - 2)
    ensures
      var fat := old(Entries(fs));
      old(fs.freeClust) > fs.g.nFatent - 2 ==>
        if fs.g.fsType == Fat12 then
          ok == !(exists c :: 2 <= c < |fat| && fat[c] == 1) && (ok ==> nclst == fs.freeClust == Free(fat))
        else
          ok && nclst == fs.freeClust == Free(fat) + (if fat[0] == 0 then 1 else 0) + (if fat[1] == 0 then 1 else 0)
  {
    hide Geometry.Valid, FatFs.Valid, FatFs.Synced, Fat, FatStore, ValidDisk, Octets;
    Small(fs);
    ok := true;
    if fs.freeClust <= fs.g.nFatent - 2 {
      nclst := fs.freeClust;
    } else {
      var nfree := 0;
      if fs.g.fsType == Fat12 {
        ok, nfree := CountByEntry(fs);
      } else {
        nfree := CountBySector(fs);
        ZeroIsFree(Entries(fs), fs.g.nFatent);
      }
      fs.freeClust := nfree;
      fs.fsiDirty := true;
      nclst := nfree;
    }
  }

  method CountByEntry(fs: FatFs) returns (ok: bool, nfree: nat)
    requires fs.Valid()
    modifies fs`disk, fs`wflag, fs`winsect, fs.win
    ensures fs.Valid() && fs.Synced() == old(fs.Synced())
    ensures ok == !(exists c :: 2 <= c < fs.g.nFatent && old(Entries(fs))[c] == 1)
    ensures ok ==> nfree == Free(old(Entries(fs)))
  {
    hide Geometry.Valid, FatFs.Valid, FatFs.Synced, Fat, FatStore, ValidDisk, Octets;
    ghost var fat := Entries(fs);
    Small(fs);
    var clst := 2;
    nfree := 0;
    ok := true;
    while clst < fs.g.nFatent
      invariant fs.Valid() && fs.Synced() == old(fs.Synced()) && Entries(fs) == fat && 2 <= clst <= fs.g.nFatent
      invariant ok && nfree == FreeBelow(fat, clst)
      invariant forall c :: 2 <= c < clst ==> fat[c] != 1
    {
      var stat := GetFat(fs, clst);
      assert stat == fat[clst];
      if stat == 1 { ok := false; break; }
      if stat == 0 { nfree := nfree + 1; }
      clst := clst + 1;
    }
  }

  ghost predicate Multiple(p: nat, w: nat) {
    0 < w && p % w == 0
  }

  lemma EntryOctets(g: Geometry, sectors: nat, e: nat, w: nat)
    requires g.Valid(sectors) && g.fsType != Fat12 && e < g.nFatent && w == Width(g.fsType)
    ensures e * w == Offset(g.fsType, e) && e * w + w <= g.FatOctets()
  {
    EntryInside(g, e, sectors);
  }

  lemma SectorStart(ss: nat, q: nat, k: nat)
    requires 0 < ss && k == q * ss
    ensures SectorOf(ss, k) == q && OffsetIn(ss, k) == 0
  {
    DivModUnique(q, ss, 0);
  }

  // An entry starting p octets into sector q lies wholly in that sector.
  lemma EntryInSector(g: Geometry, sectors: nat, e: nat, w: nat, q: nat, p: nat, j: nat)
    requires g.Valid(sectors) && (w == 2 || w == 4) && p < g.ss && Multiple(p, w) && e * w == q * g.ss + p && j < w
    ensures p + w <= g.ss && Multiple(p + w, w)
    ensures SectorOf(g.ss, e * w + j) == q && OffsetIn(g.ss, e * w + j) == p + j
  {
    Rooms(g.ss, w, p);
    DivModUnique(q, g.ss, p + j);
  }

  lemma Next(a: nat, b: nat)
    ensures (a + 1) * b == a * b + b
  {
  }

  lemma FirstEntry(w: nat)
    requires w == 2 || w == 4
    ensures Multiple(0, w)
  {
  }

  lemma Rooms(ss: nat, w: nat, p: nat)
    requires (ss == 512 || ss == 1024 || ss == 2048 || ss == 4096) && (w == 2 || w == 4) && p < ss && Multiple(p, w)
    ensures p + w <= ss && Multiple(p + w, w)
  {
  }

  // LD_WORD(p) == 0, or (LD_DWORD(p) & 0x0FFFFFFF) == 0.
  method EntryIsZero(fs: FatFs, w: nat, p: nat, ghost q: nat, ghost e: nat) returns (zero: bool)
    requires fs.Valid() && fs.g.fsType != Fat12 && w == Width(fs.g.fsType) && e < fs.g.nFatent
    requires p < fs.g.ss && Multiple(p, w) && e * w == q * fs.g.ss + p
    requires fs.winsect == fs.g.fatbase + q < |fs.disk| && fs.win[..fs.g.ss] == fs.Synced()[fs.winsect]
    ensures zero == (Entries(fs)[e] == 0)
    ensures p + w <= fs.g.ss && Multiple(p + w, w)
  {
    hide Geometry.Valid, FatFs.Valid, FatFs.Synced, FatStore, ValidDisk, Octets, Geometry.FatOctets, SectorOf,
         OffsetIn, LdWord, LdDword, Multiple, Fat;
    Sane(fs);
    EntryOctets(fs.g, |fs.disk|, e, w);
    FatAt(fs.g, fs.Synced(), e);
    EntryInSector(fs.g, |fs.disk|, e, w, q, p, 0);
    EntryInSector(fs.g, |fs.disk|, e, w, q, p, 1);
    WindowShows(fs, q, e * w);
    WindowShows(fs, q, e * w + 1);
    if w == 2 {
      zero := LdWord(fs.win[p], fs.win[p + 1]) == 0;
    } else {
      EntryInSector(fs.g, |fs.disk|, e, w, q, p, 2);
      EntryInSector(fs.g, |fs.disk|, e, w, q, p, 3);
      WindowShows(fs, q, e * w + 2);
      WindowShows(fs, q, e * w + 3);
      zero := LdDword(fs.win[p], fs.win[p + 1], fs.win[p + 2], fs.win[p + 3]) % 0x1000_0000 == 0;
    }
  }

  // FAT16 and FAT32: entries picked straight out of the window, sector after sector.
  method CountBySector(fs: FatFs) returns (nfree: nat)
    requires fs.Valid() && fs.g.fsType != Fat12
    modifies fs`disk, fs`wflag, fs`winsect, fs.win
    ensures fs.Valid() && fs.Synced() == old(fs.Synced())
    ensures nfree == ZeroBelow(Entries(fs), fs.g.nFatent)
  {
    hide Geometry.Valid, FatFs.Valid, FatFs.Synced, Fat, FatStore, ValidDisk, Octets, Geometry.FatOctets, SectorOf,
         OffsetIn, LdWord, LdDword, Multiple;
    Sane(fs);
    Small(fs);
    var w := if fs.g.fsType == Fat16 then 2 else 4;
    var clst, sect, i, p := fs.g.nFatent, fs.g.fatbase, 0, 0;
    nfree := 0;
    ghost var fat := Entries(fs);
    ghost var e: nat := 0;
    ghost var ss := fs.g.ss;
    ghost var q: nat := 0;
    ghost var k, base: nat := 0, 0;
    while clst > 0
      invariant fs.Valid() && fs.Synced() == old(fs.Synced())
      invariant Entries(fs) == fat && e + clst == |fat| && nfree == ZeroBelow(fat, e)
      invariant k == e * w && base == q * ss
      invariant i == 0 ==> k == base && sect == fs.g.fatbase + q
      invariant i != 0 ==> p + i == ss && Multiple(p, w) && k == base + p && sect == fs.g.fatbase + q + 1
      invariant i != 0 ==> fs.winsect == fs.g.fatbase + q < |fs.disk| && fs.win[..ss] == fs.Synced()[fs.winsect]
    {
      EntryOctets(fs.g, |fs.disk|, e, w);
      if i == 0 {
        SectorStart(ss, q, e * w);
        MoveToFat(fs, sect - fs.g.fatbase, e * w);
        sect := sect + 1;
        FirstEntry(w);
        p := 0;
        i := fs.g.ss;
      }
      var zero := EntryIsZero(fs, w, p, q, e);
      if zero { nfree := nfree + 1; }
      p := p + w;
      i := i - w;
      Next(e, w);
      Next(q, ss);
      e, k := e + 1, k + w;
      if i == 0 { q, base := q + 1, base + ss; }
      clst := clst - 1;
    }
  }
}
