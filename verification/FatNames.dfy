// Long file names in directory entries (component/fatfs/ff.c, fit_lfn, pick_lfn, the
// name part of dir_register, dir_read).
module FatNames {
  import opened Bytes
  import opened FatVolume

  const MAX_LFN := 255
  const LLEF := 0x40
  const AM_VOL := 0x08
  const AM_LFN := 0x0F

  // A UTF-16 code unit.
  type unit16 = u: int | 0 <= u < 0x1_0000

  // A name a directory can hold: no terminator, no filler, at most as many units as the
  // working buffer has room for.
  predicate IsName(name: seq<unit16>) {
    0 < |name| <= MAX_LFN && forall i :: 0 <= i < |name| ==> name[i] != 0 && name[i] != 0xFFFF
  }

  // The working buffer with a terminated name in it.
  ghost predicate InBuffer(lfnbuf: array<unit16>, name: seq<unit16>)
    reads lfnbuf
  {
    lfnbuf.Length == MAX_LFN + 1 && |name| <= MAX_LFN && lfnbuf[..|name|] == name && lfnbuf[|name|] == 0
  }

  // ---- What an entry holds ----

  // LfnOfs: where the thirteen units of an entry lie.
  function LfnOfs(s: nat): nat {
    if s < 5 then 1 + 2 * s else if s < 11 then 14 + 2 * (s - 5) else 28 + 2 * (s - 11)
  }

  // Entries a name takes; the number of the last one, which is written first.
  function Last(name: seq<unit16>): nat {
    (|name| + 12) / 13
  }

  // The unit at a position: of the name, the terminator, and filler behind it.
  function UnitOf(name: seq<unit16>, k: nat): unit16 {
    if k < |name| then name[k] else if k == |name| then 0 else 0xFFFF
  }

  function UnitAt(tab: array<byte>, base: nat, s: nat): unit16
    requires s < 13 && base + SZ_DIRE <= tab.Length
    reads tab
  {
    LdWord(tab[base + LfnOfs(s)], tab[base + LfnOfs(s) + 1])
  }

  ghost predicate HasUnits(tab: array<byte>, base: nat, name: seq<unit16>, ord: nat, n: nat)
    requires n <= 13 && base + SZ_DIRE <= tab.Length && ord > 0
    reads tab
  {
    forall s :: 0 <= s < n ==> UnitAt(tab, base, s) == UnitOf(name, (ord - 1) * 13 + s)
  }

  // The fixed fields of an LFN entry.
  ghost predicate Heading(tab: array<byte>, base: nat, sum: byte)
    requires base + SZ_DIRE <= tab.Length
    reads tab
  {
    && tab[base + 11] == 0x0F && tab[base + 12] == 0 && tab[base + 13] == sum
    && tab[base + 26] == 0 && tab[base + 27] == 0
  }

  // The part number `ord` of a name, in the slot at `base`.
  ghost predicate IsPart(tab: array<byte>, base: nat, name: seq<unit16>, ord: nat, sum: byte)
    reads tab
  {
    && 0 < ord <= Last(name) && base + SZ_DIRE <= tab.Length
    && tab[base] == (if ord == Last(name) then 0x40 + ord else ord) && Heading(tab, base, sum)
    && HasUnits(tab, base, name, ord, 13)
  }

  // Everything outside one slot stays.
  twostate predicate OnlySlot(tab: array<byte>, base: nat)
    reads tab
  {
    forall k :: 0 <= k < tab.Length && !(base <= k < base + SZ_DIRE) ==> tab[k] == old(tab[k])
  }

  method StoreWord(tab: array<byte>, at: nat, w: unit16)
    requires at + 2 <= tab.Length
    modifies tab
    ensures LdWord(tab[at], tab[at + 1]) == w && tab[at] == w % 0x100 && tab[at + 1] == w / 0x100
    ensures forall k :: 0 <= k < tab.Length && k != at && k != at + 1 ==> tab[k] == old(tab[k])
  {
    tab[at] := w % 0x100;
    tab[at + 1] := w / 0x100;
  }

  // One more unit of an entry.
  method StoreUnit(tab: array<byte>, base: nat, s: nat, wc: unit16, ghost name: seq<unit16>, ghost ord: nat,
                   ghost sum: byte)
    requires s < 13 && base + SZ_DIRE <= tab.Length && ord > 0 && wc == UnitOf(name, (ord - 1) * 13 + s)
    requires HasUnits(tab, base, name, ord, s) && Heading(tab, base, sum)
    modifies tab
    ensures HasUnits(tab, base, name, ord, s + 1) && Heading(tab, base, sum) && OnlySlot(tab, base)
  {
    hide UnitOf;
    StoreWord(tab, base + LfnOfs(s), wc);
    assert forall r :: 0 <= r < s ==> LfnOfs(r) + 2 <= LfnOfs(s);
    forall r | 0 <= r < s + 1 ensures UnitAt(tab, base, r) == UnitOf(name, (ord - 1) * 13 + r) {
      if r < s { assert UnitAt(tab, base, r) == old(UnitAt(tab, base, r)); }
    }
  }

  method StoreHeading(tab: array<byte>, base: nat, sum: byte)
    requires base + SZ_DIRE <= tab.Length
    modifies tab
    ensures Heading(tab, base, sum) && OnlySlot(tab, base)
  {
    hide LdWord;
    tab[base + 13] := sum;
    tab[base + 11] := AM_LFN;
    tab[base + 12] := 0;
    StoreWord(tab, base + 26, 0);
  }

  lemma BufferUnit(lfnbuf: array<unit16>, name: seq<unit16>, i: nat)
    requires IsName(name) && InBuffer(lfnbuf, name) && i <= |name|
    ensures i < lfnbuf.Length && lfnbuf[i] == UnitOf(name, i) && lfnbuf[i] != 0xFFFF
    ensures (lfnbuf[i] == 0 <==> i == |name|)
  {
    assert i < |name| ==> lfnbuf[i] == lfnbuf[..|name|][i];
  }

  lemma LastBound(name: seq<unit16>, ord: nat)
    requires IsName(name) && 0 < ord <= Last(name)
    ensures ord <= Last(name) <= 20 && (ord - 1) * 13 < |name| && (ord == Last(name) <==> |name| <= ord * 13)
  {
  }

  // Arrays of different elements are different arrays.
  lemma Separate(a: array<byte>, b: array<unit16>)
    ensures a as object != b
  {
  }

  // fit_lfn: one part of the name into one slot.
  method FitLfn(lfnbuf: array<unit16>, tab: array<byte>, base: nat, ord0: nat, sum: byte, ghost name: seq<unit16>)
    requires IsName(name) && InBuffer(lfnbuf, name) && 0 < ord0 <= Last(name) && base + SZ_DIRE <= tab.Length
    modifies tab
    ensures IsPart(tab, base, name, ord0, sum) && OnlySlot(tab, base)
  {
    hide InBuffer, IsName, HasUnits, LfnOfs, UnitAt, Last;
    Separate(tab, lfnbuf);
    LastBound(name, ord0);
    StoreHeading(tab, base, sum);
    var i := (ord0 - 1) * 13;
    var s, wc: unit16 := 0, 0;
    ghost var first := i;
    NoUnits(tab, base, name, ord0);
    while s < 13
      invariant s <= 13 && HasUnits(tab, base, name, ord0, s) && Heading(tab, base, sum) && OnlySlot(tab, base)
      invariant wc == 0xFFFF <==> s > 0 && first + s > |name|
      invariant wc != 0xFFFF ==> i == first + s <= |name|
    {
      if wc != 0xFFFF {
        BufferUnit(lfnbuf, name, i);
        wc := lfnbuf[i];
        i := i + 1;
      }
      StoreUnit(tab, base, s, wc, name, ord0, sum);
      if wc == 0 {
        wc := 0xFFFF;
      }
      s := s + 1;
    }
    var ord := ord0;
    if wc != 0xFFFF { BufferUnit(lfnbuf, name, i); }
    if wc == 0xFFFF || lfnbuf[i] == 0 {
      ord := ord + LLEF;
    }
    StoreOrd(tab, base, ord, name, ord0, sum);
  }

  method StoreOrd(tab: array<byte>, base: nat, ord: byte, ghost name: seq<unit16>, ghost ord0: nat, ghost sum: byte)
    requires base + SZ_DIRE <= tab.Length && ord0 > 0 && HasUnits(tab, base, name, ord0, 13) && Heading(tab, base, sum)
    modifies tab
    ensures tab[base] == ord && HasUnits(tab, base, name, ord0, 13) && Heading(tab, base, sum) && OnlySlot(tab, base)
  {
    hide UnitOf;
    tab[base] := ord;
    forall r | 0 <= r < 13 ensures UnitAt(tab, base, r) == UnitOf(name, (ord0 - 1) * 13 + r) {
      assert UnitAt(tab, base, r) == old(UnitAt(tab, base, r));
    }
  }

  lemma NoUnits(tab: array<byte>, base: nat, name: seq<unit16>, ord: nat)
    requires base + SZ_DIRE <= tab.Length && ord > 0
    ensures HasUnits(tab, base, name, ord, 0)
  {
  }

  // ---- pick_lfn ----

  // Units of a slot up to its first zero, or all thirteen; those before s are no zeros.
  ghost function TakenFrom(o: seq<byte>, s: nat): (n: nat)
    requires |o| == 32 && s <= 13
    ensures s <= n <= 13 && (s < 13 ==> s < n)
    ensures forall r: nat :: s <= r < n - 1 ==> UnitIn(o, r) != 0
    ensures n < 13 ==> UnitIn(o, n - 1) == 0
    decreases 13 - s
  {
    if s == 13 then 13 else if UnitIn(o, s) == 0 then s + 1 else TakenFrom(o, s + 1)
  }

  // Where the units of a part go, and what is the end of them.
  ghost function First(o: seq<byte>): int
    requires |o| == 32
  {
    (o[0] as int % 0x40 - 1) * 13
  }

  ghost function End(o: seq<byte>): int
    requires |o| == 32
  {
    First(o) + TakenFrom(o, 0)
  }

  // A part that can be taken: it has a number, a zero cluster and only filler behind a zero unit,
  // and the buffer has room for it; of the last part also for the terminator.
  ghost predicate Fits(o: seq<byte>) {
    && |o| == 32 && o[26] == 0 && o[27] == 0 && o[0] % 0x40 != 0
    && End(o) <= 255 && (o[0] / 0x40 % 2 == 1 ==> End(o) < 255)
    && forall s :: TakenFrom(o, 0) <= s < 13 ==> UnitIn(o, s) == 0xFFFF
  }

  // The buffer with a part put into it.
  ghost predicate Picked(o: seq<byte>, b: seq<unit16>, r: seq<unit16>)
    requires |o| == 32
  {
    && |b| == |r| == 256
    && forall k :: 0 <= k < 256 ==>
         r[k] == if First(o) <= k < End(o) then UnitIn(o, k - First(o))
                 else if k == End(o) && o[0] / 0x40 % 2 == 1 then 0 else b[k]
  }

  lemma SlotUnit(tab: array<byte>, base: nat, s: nat)
    requires s < 13 && base + SZ_DIRE <= tab.Length
    ensures UnitAt(tab, base, s) == UnitIn(tab[base..base + SZ_DIRE], s)
  {
    LfnPlace(s);
  }

  lemma LfnPlace(s: nat)
    requires s < 13
    ensures LfnOfs(s) == [1, 3, 5, 7, 9, 14, 16, 18, 20, 22, 24, 28, 30][s]
  {
  }

  // pick_lfn: one entry into the buffer.
  method PickLfn(lfnbuf: array<unit16>, tab: array<byte>, base: nat) returns (ok: bool)
    requires lfnbuf.Length == MAX_LFN + 1 && base + SZ_DIRE <= tab.Length
    modifies lfnbuf
    ensures ok <==> Fits(tab[base..base + SZ_DIRE])
    ensures ok ==> Picked(tab[base..base + SZ_DIRE], old(lfnbuf[..]), lfnbuf[..])
  {
    hide LfnOfs, UnitAt, LdWord, UnitIn, TakenFrom;
    Separate(tab, lfnbuf);
    ghost var o := tab[base..base + SZ_DIRE];
    ghost var n := TakenFrom(o, 0);
    ZeroWord(tab[base + 26], tab[base + 27]);
    if LdWord(tab[base + 26], tab[base + 27]) != 0 {
      return false;
    }
    var ord: nat := tab[base] % 0x40;
    var i: nat := if ord == 0 then 0xFFFF_FFF3 else (ord - 1) * 13;
    var wc: unit16, s := 1, 0;
    while s < 13
      invariant s <= 13 && lfnbuf.Length == MAX_LFN + 1
      invariant if ord == 0 then s == 0 && wc != 0 && i > MAX_LFN else i == First(o) + (if wc == 0 then n else s)
      invariant if wc == 0 then n <= s else TakenFrom(o, s) == n
      invariant s > 0 ==> i <= MAX_LFN
      invariant forall k :: 0 <= k < 256 ==>
        lfnbuf[k] == if ord != 0 && First(o) <= k < i then UnitIn(o, k - First(o)) else old(lfnbuf[k])
      invariant forall r :: n <= r < s ==> UnitIn(o, r) == 0xFFFF
    {
      SlotUnit(tab, base, s);
      var uc := UnitAt(tab, base, s);
      if wc != 0 {
        TakenStep(o, s);
        if i >= MAX_LFN {
          return false;
        }
        wc := uc;
        lfnbuf[i] := uc;
        i := i + 1;
      } else {
        if uc != 0xFFFF {
          return false;
        }
      }
      s := s + 1;
    }
    if tab[base] / 0x40 % 2 == 1 {
      if i >= MAX_LFN {
        return false;
      }
      lfnbuf[i] := 0;
    }
    return true;
  }

  lemma TakenStep(o: seq<byte>, s: nat)
    requires |o| == 32 && s < 13
    ensures TakenFrom(o, s) == if UnitIn(o, s) == 0 then s + 1 else TakenFrom(o, s + 1)
  {
  }

  lemma ZeroWord(lo: byte, hi: byte)
    ensures LdWord(lo, hi) == 0 <==> lo == 0 && hi == 0
  {
  }

  // The units of a part that belong to the name or end it.
  ghost predicate Captured(b: seq<unit16>, name: seq<unit16>, from: nat, to: nat) {
    |b| == 256 && forall k :: from <= k < to && k <= |name| && k < MAX_LFN ==> b[k] == UnitOf(name, k)
  }

  // A part of a name fits unless it is the last one of a name of more than 253 units.
  lemma PartTaken(o: seq<byte>, name: seq<unit16>, ord: nat, sum: byte)
    requires IsName(name) && PartBytes(o, name, ord, sum)
    ensures First(o) == (ord - 1) * 13 && (o[0] / 0x40 % 2 == 1 <==> ord == Last(name))
    ensures End(o) == if ord == Last(name) && |name| < ord * 13 then |name| + 1 else ord * 13
    ensures Fits(o) <==> ord < Last(name) || |name| <= 253
  {
    hide UnitIn;
    LastBound(name, ord);
    forall s: nat | s < 13
      ensures UnitIn(o, s) == 0 <==> (ord - 1) * 13 + s == |name|
      ensures (ord - 1) * 13 + s > |name| ==> UnitIn(o, s) == 0xFFFF
    {
    }
  }

  // What a part leaves of the name in the buffer.
  lemma PartPicked(o: seq<byte>, name: seq<unit16>, ord: nat, sum: byte, b: seq<unit16>, r: seq<unit16>)
    requires IsName(name) && PartBytes(o, name, ord, sum) && Fits(o) && Picked(o, b, r)
    ensures Captured(r, name, (ord - 1) * 13, ord * 13)
    ensures ord == Last(name) ==> r[|name|] == 0
    ensures ord < Last(name) ==> r[|name|] == b[|name|]
    ensures ord < Last(name) && Captured(b, name, ord * 13, Last(name) * 13)
            ==> Captured(r, name, (ord - 1) * 13, Last(name) * 13)
  {
    hide UnitIn, Fits, TakenFrom;
    LastBound(name, ord);
    PartTaken(o, name, ord, sum);
  }

  // ---- The entries of a name, in the order they are written ----

  // sum_sfn: the checksum that ties the parts to their short entry. Each octet is added to the
  // sum so far, turned right by one bit.
  ghost function SumSfn(sfn: seq<byte>): byte {
    if sfn == [] then 0 else (Turned(SumSfn(sfn[..|sfn| - 1])) + sfn[|sfn| - 1]) % 0x100
  }

  method ComputeSum(fn: seq<byte>) returns (sum: byte)
    requires |fn| >= 11
    ensures sum == SumSfn(fn[..11])
  {
    hide Turned;
    sum := 0;
    var n := 0;
    while n < 11
      invariant n <= 11 && sum == SumSfn(fn[..n])
    {
      assert fn[..n + 1][..n] == fn[..n];
      TurnedHalf(sum);
      sum := (sum / 2 + sum % 2 * 0x80 + fn[n]) % 0x100;
      n := n + 1;
    }
  }

  // A part, by the octets of its slot.
  ghost predicate PartBytes(o: seq<byte>, name: seq<unit16>, ord: int, sum: byte) {
    && |o| == 32 && 0 < ord <= Last(name) && o[0] == (if ord == Last(name) then 0x40 + ord else ord)
    && o[11] == 0x0F && o[12] == 0 && o[13] == sum && o[26] == 0 && o[27] == 0
    && forall s :: 0 <= s < 13 ==> UnitIn(o, s) == UnitOf(name, (ord - 1) * 13 + s)
  }

  // The thirteen units of a slot.
  ghost function UnitIn(o: seq<byte>, s: nat): unit16
    requires s < 13 && |o| == 32
  {
    var p := [1, 3, 5, 7, 9, 14, 16, 18, 20, 22, 24, 28, 30][s];
    o[p] as int + 0x100 * (o[p + 1] as int)
  }

  lemma PartSlot(tab: array<byte>, base: nat, name: seq<unit16>, ord: nat, sum: byte)
    requires base + SZ_DIRE <= tab.Length
    ensures IsPart(tab, base, name, ord, sum) <==> PartBytes(tab[base..base + SZ_DIRE], name, ord, sum)
  {
    hide UnitOf, Last, LdWord;
    var o := tab[base..base + SZ_DIRE];
    assert forall i :: 0 <= i < SZ_DIRE ==> o[i] == tab[base + i];
    assert forall s :: 0 <= s < 13 ==> LfnOfs(s) + 1 < SZ_DIRE;
    assert forall s :: 0 <= s < 13 ==> UnitIn(o, s) == UnitAt(tab, base, s);
  }

  // A short entry in use, neither LFN part nor volume label.
  predicate IsShort(o: seq<byte>) {
    && |o| == 32 && o[0] != 0 && o[0] != 0xE5 && o[0] != 0x2E
    && o[11] % 0x40 != 0x0F && o[11] % 0x20 != 8
  }

  // The parts of a name from slot `start` on, the last of them first, then the short entry
  // whose checksum they carry.
  ghost predicate Registered(t: seq<seq<byte>>, start: nat, name: seq<unit16>) {
    start + Last(name) < |t| && IsShort(t[start + Last(name)])
        && Parts(t, start, name, NameSum(t, start, name), Last(name))
  }

  ghost function NameSum(t: seq<seq<byte>>, start: nat, name: seq<unit16>): byte
  {
    if start + Last(name) < |t| && |t[start + Last(name)]| >= 11 then SumSfn(t[start + Last(name)][..11]) else 0
  }

  ghost predicate Parts(t: seq<seq<byte>>, start: nat, name: seq<unit16>, sum: byte, n: nat) {
    && n <= Last(name) && start + n <= |t|
    && forall e :: start <= e < start + n ==> PartBytes(t[e], name, Last(name) + start - e, sum)
  }

  lemma LastPositive(name: seq<unit16>)
    requires IsName(name)
    ensures 1 <= Last(name) <= 20 && (|name| + 25) / 13 == Last(name) + 1
  {
  }

  function Unit(lfnbuf: array<unit16>, n: nat, ghost name: seq<unit16>): (u: unit16)
    requires IsName(name) && InBuffer(lfnbuf, name) && n <= |name|
    reads lfnbuf
    ensures u == 0 <==> n == |name|
  {
    BufferUnit(lfnbuf, name, n);
    lfnbuf[n]
  }

  // A short entry: the name, zeros, and at 12 the two flags for lower case.
  ghost predicate ShortEntry(o: seq<byte>, fn: seq<byte>)
    requires |fn| == 12
  {
    && |o| == 32 && o[..11] == fn[..11] && o[11] == 0 && o[12] == fn[11] / 8 % 4 * 8
    && forall i :: 13 <= i < 32 ==> o[i] == 0
  }

  method FillShort(tab: array<byte>, base: nat, fn: seq<byte>)
    requires |fn| == 12 && base + SZ_DIRE <= tab.Length
    modifies tab
    ensures ShortEntry(tab[base..base + SZ_DIRE], fn) && OnlySlot(tab, base)
  {
    var i := 0;
    while i < SZ_DIRE
      invariant i <= SZ_DIRE && OnlySlot(tab, base)
      invariant forall k :: base <= k < base + i ==> tab[k] == if k < base + 11 then fn[k - base] else 0
    {
      tab[base + i] := if i < 11 then fn[i] else 0;
      i := i + 1;
    }
    tab[base + 12] := fn[11] / 8 % 4 * 8;
    ghost var o := tab[base..base + SZ_DIRE];
    assert forall k :: 0 <= k < 32 ==> o[k] == tab[base + k];
    assert o[..11] == fn[..11];
  }
}
