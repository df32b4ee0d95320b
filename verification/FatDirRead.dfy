// Directories read back (ff.c: dir_read), and the round trip with dir_register.
module FatDirRead {
  import opened Bytes
  import opened FatVolume
  import opened FatChains
  import opened FatAlloc
  import opened FatFile
  import opened FatNames
  import opened FatDir
  import opened FatLongNames

  // ---- What a slot is ----

  // The first octet ends the table, a deleted entry begins with E5, a dot entry with a dot;
  // of the attribute octet six bits count, 0F for a part of a long name and 08 for a volume
  // label, archived or not.
  datatype Look = TheEnd | Skip | Part | Short

  function LookAt(c: byte, attr: byte): Look {
    if c == 0 then TheEnd
    else if c == DDEM || c == '.' as nat || attr % 0x20 == AM_VOL then Skip
    else if attr % 0x40 == AM_LFN then Part
    else Short
  }

  ghost predicate IsLong(o: seq<byte>) {
    |o| == 32 && o[0] != 0 && o[0] != 0xE5 && o[0] != 0x2E && o[11] % 0x40 == 0x0F
  }

  lemma LookMeans(o: seq<byte>)
    requires |o| == 32
    ensures LookAt(o[0], o[11]) == TheEnd <==> o[0] == 0
    ensures LookAt(o[0], o[11]) == Part <==> IsLong(o)
    ensures LookAt(o[0], o[11]) == Short <==> IsShort(o)
  {
  }

  // ---- One slot ----

  // What one part does to the number, the sum and the place of the sequence, and to the buffer.
  ghost predicate PartRead(o: seq<byte>, index: nat, b: seq<unit16>, r: seq<unit16>, ord0: nat, sum0: nat, lfnIdx0: nat,
                           ord: nat, sum: nat, lfnIdx: nat)
    requires |o| == 32
  {
    var marked := o[0] / 0x40 % 2 == 1;
    var c: int := if marked then o[0] as int - 0x40 else o[0];
    var goesOn := Fits(o) && (marked || (c == ord0 && o[13] == sum0));
    && |r| == 256 && sum == (if marked then o[13] else sum0) && lfnIdx == (if marked then index else lfnIdx0)
    && ord == (if goesOn then c - 1 else 0xFF) && (goesOn ==> Picked(o, b, r))
  }

  // One LFN entry of dir_read, at `base` of the window: the sequence goes on or is given up.
  method ReadPart(tab: array<byte>, base: nat, index: nat, lfnbuf: array<unit16>, ord0: nat, sum0: nat, lfnIdx0: nat)
    returns (ord: nat, sum: nat, lfnIdx: nat)
    requires lfnbuf.Length == MAX_LFN + 1 && base + SZ_DIRE <= tab.Length && ord0 < 0x100
    modifies lfnbuf
    ensures PartRead(tab[base..base + SZ_DIRE], index, old(lfnbuf[..]), lfnbuf[..], ord0, sum0, lfnIdx0, ord,
                     sum, lfnIdx)
  {
    hide Picked, Fits;
    Separate(tab, lfnbuf);
    ghost var o := tab[base..base + SZ_DIRE];
    Numbered(o);
    var c: nat := tab[base];
    ord, sum, lfnIdx := ord0, sum0, lfnIdx0;
    if c / LLEF % 2 == 1 {
      sum := tab[base + 13];
      c := c - LLEF;
      ord := c;
      lfnIdx := index;
    }
    var ok := false;
    if c == ord && sum == tab[base + 13] {
      ok := PickLfn(lfnbuf, tab, base);
    }
    ord := if ok then (ord + 0xFF) % 0x100 else 0xFF;
  }

  lemma Numbered(o: seq<byte>)
    ensures Fits(o) ==> |o| == 32 && o[0] % 0x40 != 0
  {
  }

  // What one slot does.
  ghost predicate SlotTaken(o: seq<byte>, index: nat, b: seq<unit16>, r: seq<unit16>, ord0: nat, sum0: nat,
                            lfnIdx0: nat,
                           look: Look, ord: nat, sum: nat, lfnIdx: nat)
  {
    && |o| == 32 && |b| == |r| == 256 && (look == TheEnd <==> o[0] == 0) && (look == Part <==> IsLong(o))
    && (look == Short <==> IsShort(o))
    && match look
       case TheEnd => true
       case Skip => ord == 0xFF
       case Part => PartRead(o, index, b, r, ord0, sum0, lfnIdx0, ord, sum, lfnIdx)
       case Short => r == b && lfnIdx == if ord0 == 0 && sum0 == SumSfn(o[..11]) then lfnIdx0 else 0xFFFF
  }

  // One slot of dir_read.
  method ReadSlot(d: Dir, lfnbuf: array<unit16>, ord0: nat, sum0: nat, lfnIdx0: nat)
    returns (look: Look, ord: nat, sum: nat, lfnIdx: nat)
    requires d.Valid() && d.At(d.index) && lfnbuf.Length == MAX_LFN + 1 && ord0 < 0x100
    modifies d.fs`disk, d.fs`wflag, d.fs`winsect, d.fs.win, lfnbuf
    ensures d.Valid() && d.At(d.index) && d.fs.Synced() == old(d.fs.Synced()) && SlotsOf(d) == old(SlotsOf(d))
    ensures d.index < |SlotsOf(d)| && (ord0 < 0x100 ==> ord < 0x100)
    ensures SlotTaken(SlotsOf(d)[d.index], d.index, old(lfnbuf[..]), lfnbuf[..], ord0, sum0, lfnIdx0, look, ord, sum,
                     lfnIdx)
  {
    hide Dir.At, SlotsOf, FatFs.Synced, FatFs.Valid, Forest, SumSfn, Picked, Fits, Dir.Valid;
    Mounted(d);
    Separate(d.fs.win, lfnbuf);
    Show(d);
    Mounted(d);
    ord, sum, lfnIdx := ord0, sum0, lfnIdx0;
    ghost var o := d.fs.win[d.off..d.off + SZ_DIRE];
    assert o[0] == d.fs.win[d.off] && o[11] == d.fs.win[d.off + 11];
    LookMeans(o);
    look := LookAt(d.fs.win[d.off], d.fs.win[d.off + 11]);
    match look {
      case TheEnd =>
      case Skip => ord := 0xFF;
      case Part => ord, sum, lfnIdx := ReadPart(d.fs.win, d.off, d.index, lfnbuf, ord0, sum0, lfnIdx0);
      case Short =>
        var fn := d.fs.win[d.off..d.off + 11];
        assert fn[..11] == fn == o[..11];
        var fsum := ComputeSum(fn);
        if ord != 0 || sum != fsum {
          lfnIdx := 0xFFFF;
        }
    }
  }

  // ---- Any table: a long name reported is there ----

  // A part's units stand at their place in the buffer, and behind the last part a zero.
  ghost predicate Stands(o: seq<byte>, b: seq<unit16>)
    requires |o| == 32
  {
    && |b| == 256 && 0 <= First(o) && End(o) <= 255
    && (forall k :: First(o) <= k < End(o) ==> b[k] == UnitIn(o, k - First(o)))
    && (o[0] / 0x40 % 2 == 1 ==> b[End(o)] == 0)
  }

  // Slots lfnIdx to i - 1 hold parts of one long name, numbered down to ord + 1, the first marked
  // as its last, all with the same sum and all in the buffer.
  ghost predicate Sequence(t: seq<seq<byte>>, b: seq<unit16>, lfnIdx: nat, i: nat, ord: nat, sum: nat) {
    && lfnIdx < i <= |t|
    && forall k :: lfnIdx <= k < i ==> IsLong(t[k]) && InOrder(t[k], lfnIdx, i, k, ord, sum) && Stands(t[k], b)
  }

  ghost predicate InOrder(o: seq<byte>, lfnIdx: nat, i: nat, k: nat, ord: nat, sum: nat)
    requires |o| == 32 && k < i
  {
    && o[13] == sum && o[0] == (if k == lfnIdx then 0x40 else 0) + ord + i - k
    && o[0] % 0x40 == ord % 0x40 + i - k && (o[0] / 0x40 % 2 == 1 <==> k == lfnIdx)
  }

  lemma StandsOn(o: seq<byte>, next: seq<byte>, b: seq<unit16>, r: seq<unit16>)
    requires |o| == |next| == 32 && Stands(o, b) && Picked(next, b, r) && next[0] % 0x40 < o[0] % 0x40
    requires next[0] / 0x40 % 2 == 0
    ensures Stands(o, r)
  {
    hide UnitIn;
  }

  lemma SequenceOn(t: seq<seq<byte>>, i: nat, b: seq<unit16>, r: seq<unit16>, ord0: nat, sum0: nat, lfnIdx0: nat,
                   ord: nat, sum: nat, lfnIdx: nat)
    requires i < |t| && IsLong(t[i]) && PartRead(t[i], i, b, r, ord0, sum0, lfnIdx0, ord, sum, lfnIdx) && ord != 0xFF
    requires ord0 != 0xFF ==> Sequence(t, b, lfnIdx0, i, ord0, sum0)
    ensures Sequence(t, r, lfnIdx, i + 1, ord, sum)
  {
    hide UnitIn, TakenFrom, Stands;
    var o := t[i];
    NowStands(o, b, r);
    if o[0] / 0x40 % 2 == 0 {
      forall k: nat | lfnIdx <= k < i ensures InOrder(t[k], lfnIdx, i + 1, k, ord, sum) && Stands(t[k], r) {
        assert InOrder(t[k], lfnIdx, i, k, ord0, sum0);
        StandsOn(t[k], o, b, r);
      }
    }
  }

  lemma NowStands(o: seq<byte>, b: seq<unit16>, r: seq<unit16>)
    requires Fits(o) && Picked(o, b, r)
    ensures Stands(o, r)
  {
    hide UnitIn;
  }

  // The reader at slot i: any sequence it follows is there, and begins no earlier than it did.
  ghost predicate Follows(t: seq<seq<byte>>, b: seq<unit16>, from: nat, i: nat, ord: nat, sum: nat, lfnIdx: nat) {
    ord != 0xFF ==> from <= lfnIdx && Sequence(t, b, lfnIdx, i, ord, sum)
  }

  // The slots passed over: none ends the table, none is a short entry.
  ghost predicate PassedOver(t: seq<seq<byte>>, from: nat, i: nat) {
    i <= |t| && forall k :: from <= k < i ==> |t[k]| == 32 && t[k][0] != 0 && !IsShort(t[k])
  }

  // A long name reported for the short entry at slot i: all its parts from slot lfnIdx on, the
  // checksum in each that of the entry.
  ghost predicate NameOf(t: seq<seq<byte>>, b: seq<unit16>, from: nat, i: nat, lfnIdx: nat) {
    from <= lfnIdx && i < |t| && |t[i]| == 32 && Sequence(t, b, lfnIdx, i, 0, SumSfn(t[i][..11]))
  }

  lemma FollowsOn(t: seq<seq<byte>>, b: seq<unit16>, r: seq<unit16>, from: nat, i: nat, ord0: nat, sum0: nat,
                  lfnIdx0: nat, look: Look, ord: nat, sum: nat, lfnIdx: nat)
    requires from <= i < |t| && PassedOver(t, from, i) && Follows(t, b, from, i, ord0, sum0, lfnIdx0) && ord0 < 0x100
    requires SlotTaken(t[i], i, b, r, ord0, sum0, lfnIdx0, look, ord, sum, lfnIdx)
    ensures look == Skip || look == Part ==> PassedOver(t, from, i + 1) && Follows(t, r, from, i + 1, ord, sum, lfnIdx)
    ensures look == Short && lfnIdx != 0xFFFF ==> NameOf(t, r, from, i, lfnIdx)
  {
    hide Sequence, Fits, Picked, SumSfn;
    if look == Part && ord != 0xFF { SequenceOn(t, i, b, r, ord0, sum0, lfnIdx0, ord, sum, lfnIdx); }
  }

  // ---- A registered name is found ----

  // The registered name a reader stands in.
  ghost predicate Reading(t: seq<seq<byte>>, start: nat, name: seq<unit16>) {
    IsName(name) && Registered(t, start, name) && start + Last(name) < 0x1_0000
  }

  // What the table shows at the slots of a registered name.
  lemma ReadingSlot(t: seq<seq<byte>>, start: nat, index: nat, name: seq<unit16>)
    requires Reading(t, start, name) && start <= index <= start + Last(name)
    ensures index < |t| && |t[index]| == 32
    ensures index == start + Last(name) ==> IsShort(t[index])
    ensures index < start + Last(name) ==> IsLong(t[index]) && index + 1 < |t| && index + 1 < 0x1_0000
    ensures index < start + Last(name) ==>
              PartBytes(t[index], name, Last(name) + start - index, NameSum(t, start, name))
  {
    hide IsName, SumSfn, UnitIn;
    LastPositive(name);
    if index < start + Last(name) { PartHead(t[index], name, Last(name) + start - index, NameSum(t, start, name)); }
  }

  lemma PartHead(o: seq<byte>, name: seq<unit16>, ord: int, sum: byte)
    requires IsName(name) && PartBytes(o, name, ord, sum)
    ensures |o| == 32 && o[0] == (if ord == Last(name) then 0x40 + ord else ord) && o[13] == sum && IsLong(o)
    ensures 0 < ord <= Last(name) <= 20
  {
    LastBound(name, ord);
  }

  // What dir_read has gathered before the slot at `index` of a registered name.
  ghost predicate Gathered(b: seq<unit16>, name: seq<unit16>, start: nat, index: nat, ord: nat, sum: nat, lfnIdx: nat,
                           nameSum: nat)
  {
    && start <= index <= start + Last(name)
    && (index == start || |name| > 253 ==> ord == 0xFF)
    && (index > start && |name| <= 253 ==>
          && ord == Last(name) + start - index && sum == nameSum && lfnIdx == start
          && Captured(b, name, ord * 13, Last(name) * 13) && b[|name|] == 0)
  }

  lemma GatheredOn(t: seq<seq<byte>>, start: nat, index: nat, name: seq<unit16>, b: seq<unit16>, r: seq<unit16>,
                   ord0: nat, sum0: nat, lfnIdx0: nat, ord: nat, sum: nat, lfnIdx: nat)
    requires Reading(t, start, name) && start <= index < start + Last(name) && index < |t| && |t[index]| == 32
    requires Gathered(b, name, start, index, ord0, sum0, lfnIdx0, NameSum(t, start, name))
    requires PartRead(t[index], index, b, r, ord0, sum0, lfnIdx0, ord, sum, lfnIdx)
    ensures Gathered(r, name, start, index + 1, ord, sum, lfnIdx, NameSum(t, start, name))
  {
    hide PartBytes, Fits, Picked, Captured, NameSum, First, End, IsName, Registered, Last;
    var o, part, ns := t[index], Last(name) + start - index, NameSum(t, start, name);
    ReadingSlot(t, start, index, name);
    PartHead(o, name, part, ns);
    PartTaken(o, name, part, ns);
    if Fits(o) && ord != 0xFF { PartPicked(o, name, part, ns, b, r); }
  }

  // At the short entry of a registered name all of it has been gathered, or none.
  lemma ReadingEnds(lfnbuf: array<unit16>, t: seq<seq<byte>>, start: nat, name: seq<unit16>, ord: nat, sum: nat,
                    lfnIdx: nat)
    requires Reading(t, start, name)
    requires Gathered(lfnbuf[..], name, start, start + Last(name), ord, sum, lfnIdx, NameSum(t, start, name))
    ensures start + Last(name) < |t| && |t[start + Last(name)]| == 32
    ensures NameSum(t, start, name) == SumSfn(t[start + Last(name)][..11])
    ensures |name| > 253 ==> ord != 0
    ensures |name| <= 253 ==> ord == 0 && sum == NameSum(t, start, name) && lfnIdx == start && InBuffer(lfnbuf, name)
  {
    hide SumSfn, InBuffer;
    LastPositive(name);
    if |name| <= 253 { AllGathered(lfnbuf, name); }
  }

  lemma AllGathered(lfnbuf: array<unit16>, name: seq<unit16>)
    requires IsName(name) && |name| <= 253 && Captured(lfnbuf[..], name, 0, Last(name) * 13) && lfnbuf[..][|name|] == 0
    ensures InBuffer(lfnbuf, name)
  {
    assert forall k :: 0 <= k < |name| ==> lfnbuf[k] == lfnbuf[..][k] == name[k];
    assert lfnbuf[..|name|] == name;
  }

  lemma ReadingStarts(b: seq<unit16>, name: seq<unit16>, start: nat, sum: nat, lfnIdx: nat, nameSum: nat)
    ensures Gathered(b, name, start, start, 0xFF, sum, lfnIdx, nameSum)
  {
  }

  lemma Standing(d: Dir, i: nat)
    requires d.Valid() && d.At(i)
    ensures d.sect != 0 && d.index == i < 0x1_0000 && d.At(d.index)
  {
    Successor(d, i);
  }

  // A slot of a registered name, whether a part or the short entry.
  lemma ReadingOn(t: seq<seq<byte>>, start: nat, i: nat, name: seq<unit16>, b: seq<unit16>, lfnbuf: array<unit16>,
                  ord0: nat, sum0: nat, lfnIdx0: nat, look: Look, ord: nat, sum: nat, lfnIdx: nat)
    requires Reading(t, start, name) && start <= i <= start + Last(name) && i < |t| && ord0 < 0x100
    requires Gathered(b, name, start, i, ord0, sum0, lfnIdx0, NameSum(t, start, name))
    requires SlotTaken(t[i], i, b, lfnbuf[..], ord0, sum0, lfnIdx0, look, ord, sum, lfnIdx)
    ensures i < start + Last(name)
            ==> look == Part && i + 1 < |t| && i + 1 < 0x1_0000
                && Gathered(lfnbuf[..], name, start, i + 1, ord, sum, lfnIdx, NameSum(t, start, name))
    ensures i == start + Last(name)
            ==> look == Short && lfnIdx == (if |name| <= 253 then start else 0xFFFF)
                && (|name| <= 253 ==> InBuffer(lfnbuf, name))
  {
    hide PartRead, Reading, SumSfn, InBuffer, NameSum, Gathered, IsLong, IsShort;
    ReadingSlot(t, start, i, name);
    Kinds(t[i]);
    if i < start + Last(name) {
      GatheredOn(t, start, i, name, b, lfnbuf[..], ord0, sum0, lfnIdx0, ord, sum, lfnIdx);
    } else {
      ReadingEnds(lfnbuf, t, start, name, ord0, sum0, lfnIdx0);
    }
  }

  lemma Kinds(o: seq<byte>)
    requires |o| == 32
    ensures !(IsLong(o) && IsShort(o)) && (IsLong(o) || IsShort(o) ==> o[0] != 0)
  {
  }

  // dir_read, looking for files: at the first short entry from the current slot on, with the
  // place of its long name, 0xFFFF if it has none; there is none only where the table ends
  // first. A long name reported is there, part by part, and in the buffer. A registered name of
  // up to 253 units is found whole; one of 254 or 255 is not found.
  method DirRead(d: Dir, lfnbuf: array<unit16>, lfnIdx0: nat, ghost name: seq<unit16>)
    returns (res: DirResult, lfnIdx: nat, ghost last: nat)
    requires d.Valid() && (d.sect == 0 || d.At(d.index)) && lfnbuf.Length == MAX_LFN + 1
    modifies d`index, d`clust, d`sect, d`off, d`chain, lfnbuf
    modifies d.fs`disk, d.fs`wflag, d.fs`winsect, d.fs`lastClust, d.fs`freeClust, d.fs`fsiDirty, d.fs.win
    ensures d.Valid() && d.chain == old(d.chain) && d.fs.Synced() == old(d.fs.Synced()) && SlotsOf(d) == old(SlotsOf(d))
    ensures old(d.sect) != 0 ==> old(d.index) <= last && PassedOver(SlotsOf(d), old(d.index), last)
    ensures res == DirOk ==> old(d.sect) != 0 && d.At(last) && last < |SlotsOf(d)| && IsShort(SlotsOf(d)[last])
    ensures res == DirOk && lfnIdx != 0xFFFF ==> NameOf(SlotsOf(d), lfnbuf[..], old(d.index), last, lfnIdx)
    ensures res != DirOk ==> res == DirNoFile && d.sect == 0
    ensures res != DirOk && old(d.sect) != 0
            ==> last == |SlotsOf(d)| || last == 0x1_0000
                || (SlotsOf(d)[last] != [] && SlotsOf(d)[last][0] == 0)
    ensures old(d.sect) != 0 && Reading(SlotsOf(d), old(d.index), name) ==>
              && res == DirOk && last == old(d.index) + Last(name)
              && lfnIdx == (if |name| <= 253 then old(d.index) else 0xFFFF)
              && (|name| <= 253 ==> InBuffer(lfnbuf, name))
  {
    hide Dir.At, IsName, InBuffer, PartBytes, Last, SlotsOf, Parts, FatFs.Synced, FatFs.Valid, Forest, Registered,
         SumSfn, Gathered, Captured, Reading, Dir.Valid, NameSum, OnlyTable, MoreSlots, Stepped, Dir.Static,
         CountRight, NoFree, Entries, FatNames.UnitOf, PartRead, IsShort, IsLong, NameOf, PassedOver, Follows;
    Mounted(d);
    var ord, sum := 0xFF, 0xFF;
    ghost var start, slots := d.index, SlotsOf(d);
    ghost var given := d.sect != 0 && Reading(slots, start, name);
    lfnIdx, res, last := lfnIdx0, DirNoFile, start;
    ReadingStarts(lfnbuf[..], name, start, sum, lfnIdx, NameSum(slots, start, name));
    NonePassed(slots, lfnbuf[..], start, sum, lfnIdx);
    if d.sect != 0 { InTable(d, start); }
    while d.sect != 0
      invariant d.Valid() && d.fs.Valid() && ord < 0x100 && d.chain == old(d.chain) && lfnbuf.Length == MAX_LFN + 1
      invariant d.sect != 0 ==> d.At(d.index) && last == d.index < |slots| && old(d.sect) != 0
      invariant d.fs.Synced() == old(d.fs.Synced()) && SlotsOf(d) == slots
      invariant d.sect != 0 ==> start <= last && PassedOver(slots, start, last)
      invariant d.sect != 0 ==> Follows(slots, lfnbuf[..], start, last, ord, sum, lfnIdx)
      invariant given ==> d.sect != 0 && start <= d.index <= start + Last(name)
      invariant given ==> Gathered(lfnbuf[..], name, start, d.index, ord, sum, lfnIdx, NameSum(slots, start, name))
      invariant d.sect == 0 ==> old(d.sect) == 0 && res == DirNoFile
      decreases if d.sect == 0 then 0 else 0x1_0000 - d.index
    {
      ghost var i, b, ord0, sum0, idx0 := d.index, lfnbuf[..], ord, sum, lfnIdx;
      AtIndex(d, i);
      var look;
      look, ord, sum, lfnIdx := ReadSlot(d, lfnbuf, ord, sum, lfnIdx);
      FollowsOn(slots, b, lfnbuf[..], start, i, ord0, sum0, idx0, look, ord, sum, lfnIdx);
      if given { ReadingOn(slots, start, i, name, b, lfnbuf, ord0, sum0, idx0, look, ord, sum, lfnIdx); }
      if look == TheEnd {
        res := DirNoFile;
        break;
      }
      if look == Short {
        res := DirOk;
        break;
      }
      res := DirNext(d, false);
      Mounted(d);
      last := i + 1;
      if res != DirOk {
        break;
      }
      Standing(d, i + 1);
      InTable(d, i + 1);
    }
    if res != DirOk {
      d.sect := 0;
    }
  }

  lemma InTable(d: Dir, i: nat)
    requires d.Valid() && d.At(i)
    ensures i < |SlotsOf(d)|
  {
    Successor(d, i);
  }

  lemma NonePassed(t: seq<seq<byte>>, b: seq<unit16>, from: nat, sum: nat, lfnIdx: nat)
    ensures from <= |t| ==> PassedOver(t, from, from)
    ensures Follows(t, b, from, from, 0xFF, sum, lfnIdx)
  {
  }

  lemma NowReading(t: seq<seq<byte>>, u: seq<seq<byte>>, start: nat, name: seq<unit16>)
    requires Placed(t, u, start, name) && IsName(name) && start + Last(name) < 0x1_0000
    ensures Reading(u, start, name) && start < |u| && start < 0x1_0000
  {
  }

  lemma BufferLength(lfnbuf: array<unit16>, name: seq<unit16>)
    requires InBuffer(lfnbuf, name)
    ensures lfnbuf.Length == MAX_LFN + 1
  {
  }

  // Reading from the first slot of a registered name.
  method ReadFrom(d: Dir, first: nat, lfnbuf: array<unit16>, ghost name: seq<unit16>)
    returns (res: DirResult, lfnIdx: nat)
    requires d.Valid() && IsName(name) && Reading(SlotsOf(d), first, name) && lfnbuf.Length == MAX_LFN + 1
    requires first < |SlotsOf(d)| && first + 1 < 0x1_0000
    modifies d`index, d`clust, d`sect, d`off, d`chain, lfnbuf
    modifies d.fs`disk, d.fs`wflag, d.fs`winsect, d.fs`lastClust, d.fs`freeClust, d.fs`fsiDirty, d.fs.win
    ensures d.Valid() && res == DirOk && SlotsOf(d) == old(SlotsOf(d)) && d.At(first + Last(name))
    ensures lfnIdx == first && InBuffer(lfnbuf, name) <==> |name| <= 253
  {
    hide Dir.At, IsName, InBuffer, Last, SlotsOf, FatFs.Synced, FatFs.Valid, Forest, Reading;
    res := DirSdi(d, first);
    Standing(d, first);
    ghost var last;
    res, lfnIdx, last := DirRead(d, lfnbuf, 0xFFFF, name);
  }

  // The round trip: registering a long name, setting the directory to its first slot and
  // reading gives the name back exactly when it has no more than 253 units.
  method RegisterThenRead(d: Dir, lfnbuf: array<unit16>, fn: seq<byte>, ghost name: seq<unit16>)
    returns (res: DirResult, lfnIdx: nat, ghost start: nat)
    requires d.Valid() && IsName(name) && InBuffer(lfnbuf, name)
    requires |fn| == 12 && fn[0] != 0 && fn[0] != 0xE5 && fn[0] != 0x2E
    modifies d`index, d`clust, d`sect, d`off, d`chain, lfnbuf
    modifies d.fs`disk, d.fs`wflag, d.fs`winsect, d.fs`lastClust, d.fs`freeClust, d.fs`fsiDirty, d.fs.win
    ensures d.Valid() && (res == DirOk || res == DirIntErr || res == DirDenied)
    ensures res == DirOk ==> Placed(old(SlotsOf(d)), SlotsOf(d), start, name) && d.At(start + Last(name))
    ensures res == DirOk ==> (lfnIdx == start && InBuffer(lfnbuf, name) <==> |name| <= 253)
  {
    hide Dir.At, IsName, InBuffer, PartBytes, Last, SlotsOf, Parts, FatFs.Synced, FatFs.Valid, Forest, Registered,
         Reading, Placed, OnlyTable, NoRunBefore, MoreSlots, Dir.Valid, Dir.Sects, Dir.Static, CountRight, NoFree,
         Entries, SumSfn, Needed;
    BufferLength(lfnbuf, name);
    LastPositive(name);
    lfnIdx := 0xFFFF;
    var nent := LastOf(lfnbuf, name);
    Mounted(d);
    ghost var slots := SlotsOf(d);
    res, start := DirRegister(d, lfnbuf, fn, name);
    if res != DirOk {
      return;
    }
    Mounted(d);
    NowReading(slots, SlotsOf(d), start, name);
    AtIndex(d, start + Last(name));
    res, lfnIdx := ReadFrom(d, d.index - nent, lfnbuf, name);
  }
}
