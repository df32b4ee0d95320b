// What the check sum of the loader transfer is (boot/main.c, xmodem_crc16): the remainder of
// a polynomial division over bits.
module XmodemCrc {
  import opened Xmodem

  // A polynomial over two elements, the coefficient of the highest power first.
  type Bits = seq<bool>

  ghost function Add(a: Bits, b: Bits): (r: Bits)
    requires |a| == |b|
    ensures |r| == |a|
  {
    seq(|a|, i requires 0 <= i < |a| => a[i] != b[i])
  }

  ghost function Zeros(n: nat): (r: Bits)
    ensures |r| == n && forall i :: 0 <= i < n ==> !r[i]
  {
    seq(n, i => false)
  }

  // x^16 + x^12 + x^5 + 1
  ghost function Generator(): (r: Bits)
    ensures |r| == 17 && r[0] && r[16]
  {
    seq(17, i => 16 - i in {16, 12, 5, 0})
  }

  // ---- Long division ----

  // What is left when the generator has been taken off in front, once or not at all.
  ghost function TakenOff(m: Bits): (r: Bits)
    requires |m| > 16
    ensures |r| == |m| && !r[0]
  {
    if m[0] then Add(m, Generator() + Zeros(|m| - 17)) else m
  }

  ghost function Remainder(m: Bits): (r: Bits)
    requires |m| >= 16
    ensures |r| == 16
    decreases |m|
  {
    if |m| == 16 then m else Remainder(TakenOff(m)[1..])
  }

  // The product of the generator and another polynomial, one coefficient after the other.
  ghost function Multiple(q: Bits): (r: Bits)
    ensures |r| == |q| + 16
    decreases |q|
  {
    if q == [] then Zeros(16)
    else Add(if q[0] then Generator() + Zeros(|q| - 1) else Zeros(|q| + 16), [false] + Multiple(q[1..]))
  }

  ghost function Quotient(m: Bits): (r: Bits)
    requires |m| >= 16
    ensures |r| == |m| - 16
    decreases |m|
  {
    if |m| == 16 then [] else [m[0]] + Quotient(TakenOff(m)[1..])
  }

  // The remainder is one: what is divided is a multiple of the generator and it.
  lemma {:induction false} DivisionHolds(m: Bits)
    requires |m| >= 16
    ensures m == Add(Multiple(Quotient(m)), Zeros(|m| - 16) + Remainder(m))
    decreases |m|
  {
    hide TakenOff, Generator;
    if |m| == 16 {
      assert Add(Zeros(16), Zeros(0) + m) == m;
    } else {
      var rest := TakenOff(m)[1..];
      var q, r := Quotient(rest), Zeros(|rest| - 16) + Remainder(rest);
      DivisionHolds(rest);
      var first := if m[0] then Generator() + Zeros(|m| - 17) else Zeros(|m|);
      OneOff(m, first);
      assert Quotient(m) == [m[0]] + q && Quotient(m)[1..] == q;
      assert Zeros(|m| - 16) + Remainder(m) == [false] + r;
      assert [false] + rest == Add([false] + Multiple(q), [false] + r);
      Regroup(first, [false] + Multiple(q), [false] + r);
    }
  }

  lemma OneOff(m: Bits, first: Bits)
    requires |m| > 16 && first == if m[0] then Generator() + Zeros(|m| - 17) else Zeros(|m|)
    ensures |first| == |m| && m == Add(first, [false] + TakenOff(m)[1..])
  {
    hide Generator;
    assert TakenOff(m) == [false] + TakenOff(m)[1..];
    if m[0] { assert Add(first, Add(m, first)) == m; }
  }

  lemma Regroup(a: Bits, b: Bits, c: Bits)
    requires |a| == |b| == |c|
    ensures Add(a, Add(b, c)) == Add(Add(a, b), c)
  {
  }

  // ---- The bits of octets ----

  ghost function BitsOf(s: seq<octet>): (r: Bits)
    ensures |r| == 8 * |s|
    decreases |s|
  {
    if s == [] then [] else BitsOf(s[..|s| - 1]) + Eight(s[|s| - 1])
  }

  ghost predicate Top(c: bv16) {
    c & 0x8000 != 0
  }

  ghost function Left(c: bv16): bv16 {
    c << 1
  }

  ghost function Both(c: bv16, d: bv16): bv16 {
    c ^ d
  }

  // The first bits of a word from the top.
  ghost function FromTop(c: bv16, n: nat): (r: Bits)
    ensures |r| == n
    decreases n
  {
    if n == 0 then [] else [Top(c)] + FromTop(Left(c), n - 1)
  }

  ghost function OctetFromTop(b: octet, n: nat): (r: Bits)
    ensures |r| == n
    decreases n
  {
    if n == 0 then [] else [b & 0x80 != 0] + OctetFromTop(b << 1, n - 1)
  }

  ghost function Eight(b: octet): (r: Bits)
    ensures |r| == 8
  {
    OctetFromTop(b, 8)
  }

  ghost function Sixteen(c: bv16): (r: Bits)
    ensures |r| == 16
  {
    FromTop(c, 16)
  }

  // What is left of a word after the first n bits.
  ghost function Past(c: bv16, n: nat): bv16
    decreases n
  {
    if n == 0 then c else Past(Left(c), n - 1)
  }

  lemma {:induction false} FromTopSplit(c: bv16, m: nat, n: nat)
    ensures FromTop(c, m + n) == FromTop(c, m) + FromTop(Past(c, m), n)
    decreases m
  {
    if m > 0 { FromTopSplit(Left(c), m - 1, n); }
  }

  lemma {:induction false} PastSplit(c: bv16, m: nat, n: nat)
    ensures Past(c, m + n) == Past(Past(c, m), n)
    decreases m
  {
    if m > 0 { PastSplit(Left(c), m - 1, n); }
  }

  lemma PastTwo(c: bv16)
    ensures Past(c, 2) == c << 2
  {
    assert Past(c, 2) == Past(Left(c), 1) == Left(Left(c));
    TwoShifts(c);
  }

  lemma TwoShifts(c: bv16)
    ensures c << 1 << 1 == c << 2
  {
  }

  lemma MoreShifts(c: bv16)
    ensures c << 2 << 2 == c << 4 && c << 4 << 4 == c << 8 && c << 8 << 8 == 0
  {
  }

  lemma PastFour(c: bv16)
    ensures Past(c, 4) == c << 4
  {
    PastSplit(c, 2, 2);
    PastTwo(c);
    PastTwo(c << 2);
    MoreShifts(c);
  }

  lemma PastEight(c: bv16)
    ensures Past(c, 8) == c << 8
  {
    hide Past;
    PastSplit(c, 4, 4);
    PastFour(c);
    PastFour(c << 4);
    MoreShifts(c);
  }

  lemma PastAll(c: bv16)
    ensures Past(c, 16) == 0
  {
    hide Past;
    PastSplit(c, 8, 8);
    PastEight(c);
    PastEight(c << 8);
    MoreShifts(c);
  }

  lemma {:induction false} NoneFromTop(n: nat)
    ensures FromTop(0, n) == Zeros(n)
  {
    if n > 0 {
      NoneFromTop(n - 1);
      ZeroShift();
    }
  }

  lemma ZeroShift()
    ensures (0 as bv16) << 1 == 0
  {
  }

  lemma ShiftBits(c: bv16)
    ensures Sixteen(c << 1) == Sixteen(c)[1..] + [false]
  {
    FromTopSplit(c, 16, 1);
    PastAll(c);
    NoneFromTop(1);
    FromTopStep(c, 17);
    FromTopStep(c, 16);
    assert FromTop(c, 17)[1..] == FromTop(Left(c), 16)
           && (FromTop(c, 16) + [false])[1..] == FromTop(c, 16)[1..] + [false];
  }

  lemma FromTopStep(c: bv16, n: nat)
    requires n > 0
    ensures FromTop(c, n) == [Top(c)] + FromTop(Left(c), n - 1)
  {
  }

  lemma {:induction false} XorFromTop(c: bv16, d: bv16, n: nat)
    ensures FromTop(Both(c, d), n) == Add(FromTop(c, n), FromTop(d, n))
    decreases n
  {
    hide FromTop, Top, Left, Both;
    if n == 0 {
      NothingFromTop(c);
      NothingFromTop(d);
      NothingFromTop(Both(c, d));
    } else {
      FromTopStep(c, n);
      FromTopStep(d, n);
      FromTopStep(Both(c, d), n);
      XorShift(c, d);
      XorFromTop(Left(c), Left(d), n - 1);
    }
  }

  lemma NothingFromTop(c: bv16)
    ensures FromTop(c, 0) == []
  {
  }

  lemma XorShift(c: bv16, d: bv16)
    ensures Left(Both(c, d)) == Both(Left(c), Left(d)) && Top(Both(c, d)) == (Top(c) != Top(d))
  {
    ShiftBoth(c, d);
    TopBoth(c, d);
  }

  lemma ShiftBoth(c: bv16, d: bv16)
    ensures (c ^ d) << 1 == (c << 1) ^ (d << 1)
  {
  }

  lemma TopBoth(c: bv16, d: bv16)
    ensures (c ^ d) & 0x8000 != 0 <==> (c & 0x8000 != 0) != (d & 0x8000 != 0)
  {
  }

  lemma XorBits(c: bv16, d: bv16)
    ensures Sixteen(c ^ d) == Add(Sixteen(c), Sixteen(d))
  {
    XorFromTop(c, d, 16);
  }

  lemma {:induction false} OctetUpTop(b: octet, n: nat)
    ensures FromTop((b as bv16) << 8, n) == OctetFromTop(b, n)
    decreases n
  {
    if n > 0 {
      OctetShift(b);
      OctetUpTop(b << 1, n - 1);
    }
  }

  lemma OctetShift(b: octet)
    ensures (b as bv16) << 8 << 1 == ((b << 1) as bv16) << 8
    ensures ((b as bv16) << 8) & 0x8000 != 0 <==> b & 0x80 != 0
  {
  }

  lemma HighBits(b: octet)
    ensures Sixteen((b as bv16) << 8) == Eight(b) + Zeros(8)
  {
    var c := (b as bv16) << 8;
    FromTopSplit(c, 8, 8);
    OctetUpTop(b, 8);
    PastEight(c);
    MoreShifts(b as bv16);
    NoneFromTop(8);
  }

  lemma LowBits(b: octet)
    ensures Sixteen(b as bv16) == Zeros(8) + Eight(b)
  {
    hide FromTop, Past, OctetFromTop;
    var c := b as bv16;
    FromTopSplit(c, 8, 8);
    PastEight(c);
    OctetUpTop(b, 8);
    FullTop();
    BelowOctet(b);
    EmptyTop(c, 0xFF00, 8);
  }

  lemma BelowOctet(b: octet)
    ensures (b as bv16) & 0xFF00 == 0
  {
  }

  // Below 256 the first eight bits are zero.
  lemma {:induction false} EmptyTop(c: bv16, m: bv16, n: nat)
    requires c & m == 0 && FromTop(m, n) == seq(n, i => true)
    ensures FromTop(c, n) == Zeros(n)
    decreases n
  {
    hide FromTop;
    if n > 0 {
      FromTopStep(c, n);
      FromTopStep(m, n);
      assert seq(n, i => true)[1..] == seq(n - 1, i => true);
      assert FromTop(m, n)[0] && FromTop(m, n)[1..] == FromTop(Left(m), n - 1);
      NothingMasked(c, m);
      EmptyTop(Left(c), Left(m), n - 1);
    }
  }

  lemma NothingMasked(c: bv16, m: bv16)
    requires c & m == 0 && m & 0x8000 != 0
    ensures c & 0x8000 == 0 && (c << 1) & (m << 1) == 0
  {
  }

  lemma FullTop()
    ensures FromTop(0xFF00, 8) == seq(8, i => true)
  {
    assert FromTop(0xFF00, 8) == [true] + FromTop(0xFE00, 7);
    assert FromTop(0xFE00, 7) == [true] + FromTop(0xFC00, 6);
    assert FromTop(0xFC00, 6) == [true] + FromTop(0xF800, 5);
    assert FromTop(0xF800, 5) == [true] + FromTop(0xF000, 4);
    assert FromTop(0xF000, 4) == [true] + FromTop(0xE000, 3);
    assert FromTop(0xE000, 3) == [true] + FromTop(0xC000, 2);
    assert FromTop(0xC000, 2) == [true] + FromTop(0x8000, 1);
    assert FromTop(0x8000, 1) == [true] + FromTop(0, 0);
  }

  lemma {:induction false} ZeroFromTop(c: bv16, n: nat)
    requires FromTop(c, n) == Zeros(n) && Past(c, n) == 0
    ensures c == 0
    decreases n
  {
    if n > 0 {
      assert FromTop(c, n)[1..] == FromTop(Left(c), n - 1) && Zeros(n)[1..] == Zeros(n - 1);
      ZeroFromTop(Left(c), n - 1);
      assert !FromTop(c, n)[0];
      NothingLeft(c);
    }
  }

  lemma NothingLeft(c: bv16)
    requires c & 0x8000 == 0 && c << 1 == 0
    ensures c == 0
  {
  }

  lemma GeneratorBits()
    ensures Sixteen(0x1021) == Generator()[1..]
  {
    hide FromTop;
    GeneratorTop();
    GeneratorBottom();
  }

  lemma GeneratorTop()
    ensures FromTop(0x1021, 16) == [false, false, false, true, false, false, false, false] + FromTop(0x2100, 8)
  {
    assert FromTop(0x1021, 16) == [false] + FromTop(0x2042, 15);
    assert FromTop(0x2042, 15) == [false] + FromTop(0x4084, 14);
    assert FromTop(0x4084, 14) == [false] + FromTop(0x8108, 13);
    assert FromTop(0x8108, 13) == [true] + FromTop(0x210, 12);
    assert FromTop(0x210, 12) == [false] + FromTop(0x420, 11);
    assert FromTop(0x420, 11) == [false] + FromTop(0x840, 10);
    assert FromTop(0x840, 10) == [false] + FromTop(0x1080, 9);
    assert FromTop(0x1080, 9) == [false] + FromTop(0x2100, 8);
  }

  lemma GeneratorBottom()
    ensures FromTop(0x2100, 8) == [false, false, true, false, false, false, false, true]
  {
    assert FromTop(0x2100, 8) == [false] + FromTop(0x4200, 7);
    assert FromTop(0x4200, 7) == [false] + FromTop(0x8400, 6);
    assert FromTop(0x8400, 6) == [true] + FromTop(0x800, 5);
    assert FromTop(0x800, 5) == [false] + FromTop(0x1000, 4);
    assert FromTop(0x1000, 4) == [false] + FromTop(0x2000, 3);
    assert FromTop(0x2000, 3) == [false] + FromTop(0x4000, 2);
    assert FromTop(0x4000, 2) == [false] + FromTop(0x8000, 1);
    assert FromTop(0x8000, 1) == [true] + FromTop(0x0, 0);
  }

  // One step of the loop is one step of the division, a zero coming in behind.
  lemma StepDivides(c: bv16, n: nat)
    requires n > 0
    ensures TakenOff(Sixteen(c) + Zeros(n))[1..] == Sixteen(CrcBit(c)) + Zeros(n - 1)
  {
    hide Sixteen, Generator, CrcBit, TakenOff;
    StepBits(c);
    var x := Sixteen(c);
    var m := x + Zeros(n);
    assert m[1..] == x[1..] + [false] + Zeros(n - 1);
    StepOff(m);
    if m[0] {
      var g := Generator() + Zeros(|m| - 17);
      assert Add(m, g)[1..] == Add(x[1..] + [false], Generator()[1..]) + Zeros(n - 1);
    }
  }

  lemma StepOff(m: Bits)
    requires |m| > 16
    ensures TakenOff(m) == if m[0] then Add(m, Generator() + Zeros(|m| - 17)) else m
  {
  }

  lemma StepBits(c: bv16)
    ensures Sixteen(CrcBit(c)) == if Sixteen(c)[0] then Add(Sixteen(c)[1..] + [false], Generator()[1..])
                                  else Sixteen(c)[1..] + [false]
  {
    hide Sixteen, Generator;
    TopBit(c);
    ShiftBits(c);
    XorBits(c << 1, 0x1021);
    GeneratorBits();
  }

  lemma TopBit(c: bv16)
    ensures Sixteen(c)[0] == (c & 0x8000 != 0)
  {
  }

  lemma {:induction false} StepFirst(c: bv16, n: nat)
    requires n > 0
    ensures CrcBits(c, n) == CrcBits(CrcBit(c), n - 1)
    decreases n
  {
    hide CrcBit;
    if n > 1 { StepFirst(c, n - 1); }
  }

  lemma {:induction false} StepsDivide(c: bv16, n: nat)
    ensures Remainder(Sixteen(c) + Zeros(n)) == Sixteen(CrcBits(c, n))
    decreases n
  {
    hide CrcBit, Sixteen, TakenOff;
    if n == 0 {
      assert Sixteen(c) + Zeros(0) == Sixteen(c);
    } else {
      StepDivides(c, n);
      StepFirst(c, n);
      StepsDivide(CrcBit(c), n - 1);
    }
  }

  // ---- Division and addition ----

  lemma {:induction false} Linear(a: Bits, b: Bits)
    requires |a| == |b| >= 16
    ensures Remainder(Add(a, b)) == Add(Remainder(a), Remainder(b))
    decreases |a|
  {
    hide Generator;
    if |a| > 16 {
      Linear(TakenOff(a)[1..], TakenOff(b)[1..]);
      assert TakenOff(Add(a, b))[1..] == Add(TakenOff(a)[1..], TakenOff(b)[1..]);
    }
  }

  // Dividing goes on where it stood.
  lemma {:induction false} Continued(m: Bits, t: Bits)
    requires |m| >= 16
    ensures Remainder(m + t) == Remainder(Remainder(m) + t)
    decreases |m|
  {
    hide TakenOff;
    if |m| > 16 {
      Continued(TakenOff(m)[1..], t);
      FrontOnly(m, t);
    } else {
      Short(m);
    }
  }

  lemma FrontOnly(m: Bits, t: Bits)
    requires |m| > 16
    ensures TakenOff(m + t)[1..] == TakenOff(m)[1..] + t
  {
    hide Generator;
    var g := Generator() + Zeros(|m| - 17);
    assert Generator() + Zeros(|m + t| - 17) == g + Zeros(|t|);
    assert Add(m + t, g + Zeros(|t|)) == Add(m, g) + t;
  }

  lemma {:induction false} LeadingZeros(n: nat, m: Bits)
    requires |m| >= 16
    ensures Remainder(Zeros(n) + m) == Remainder(m)
    decreases n
  {
    if n == 0 {
      assert Zeros(0) + m == m;
    } else {
      assert (Zeros(n) + m)[1..] == Zeros(n - 1) + m;
      LeadingZeros(n - 1, m);
    }
  }

  // ---- The check sum ----

  lemma OctetUp(c: bv16, b: octet)
    ensures Sixteen(Mixed(c, b)) == Add(Sixteen(c), Eight(b) + Zeros(8))
  {
    hide Sixteen, Eight;
    HighBits(b);
    XorBits(c, (b as bv16) << 8);
  }

  // One more octet: eight more steps.
  lemma CrcMore(s: seq<octet>)
    requires s != []
    ensures var n := |s| - 1;
            Sixteen(Crc16(s)) == Remainder(Add(Sixteen(Crc16(s[..n])), Eight(s[n]) + Zeros(8)) + Zeros(8))
  {
    hide CrcBits, Sixteen, Eight, Remainder, Mixed;
    var n := |s| - 1;
    OctetUp(Crc16(s[..n]), s[n]);
    StepsDivide(Mixed(Crc16(s[..n]), s[n]), 8);
  }

  // The check sum is the remainder of the data with sixteen zeros behind.
  lemma {:induction false} CrcIsRemainder(s: seq<octet>)
    ensures Sixteen(Crc16(s)) == Remainder(BitsOf(s) + Zeros(16))
    decreases |s|
  {
    hide Sixteen, Eight, TakenOff, Remainder, Crc16;
    if s == [] {
      NoData();
    } else {
      var n := |s| - 1;
      CrcIsRemainder(s[..n]);
      CrcMore(s);
      OneMore(BitsOf(s[..n]), Eight(s[n]));
    }
  }

  lemma NoData()
    ensures Sixteen(Crc16([])) == Remainder(BitsOf([]) + Zeros(16))
  {
    NoneFromTop(16);
    assert Zeros(16) == BitsOf([]) + Zeros(16);
  }

  lemma OneMore(m: Bits, b: Bits)
    requires |b| == 8
    ensures Remainder(m + b + Zeros(16)) == Remainder(Add(Remainder(m + Zeros(16)), b + Zeros(8)) + Zeros(8))
  {
    hide Remainder;
    var x, y := m + Zeros(16) + Zeros(8), Zeros(|m|) + (b + Zeros(8) + Zeros(8));
    assert m + b + Zeros(16) == Add(x, y);
    Linear(x, y);
    Continued(m + Zeros(16), Zeros(8));
    LeadingZeros(|m|, b + Zeros(8) + Zeros(8));
    var r := Remainder(m + Zeros(16));
    Linear(r + Zeros(8), b + Zeros(8) + Zeros(8));
    assert Add(r + Zeros(8), b + Zeros(8) + Zeros(8)) == Add(r, b + Zeros(8)) + Zeros(8);
  }

  // ---- What it is for ----

  lemma CheckBits(hi: octet, lo: octet)
    ensures Sixteen(CrcOf(hi, lo)) == Eight(hi) + Eight(lo)
  {
    hide Sixteen, Eight;
    HighBits(hi);
    LowBits(lo);
    XorBits((hi as bv16) << 8, lo as bv16);
    EitherBits(hi, lo);
  }

  lemma EitherBits(hi: octet, lo: octet)
    ensures CrcOf(hi, lo) == ((hi as bv16) << 8) ^ (lo as bv16)
  {
  }

  lemma SameSixteen(a: bv16, b: bv16)
    ensures Sixteen(a) == Sixteen(b) <==> a == b
  {
    if Sixteen(a) == Sixteen(b) {
      XorBits(a, b);
      ZeroSum(Sixteen(a), Sixteen(b));
      PastAll(a ^ b);
      ZeroFromTop(a ^ b, 16);
      NoDifference(a, b);
    }
  }

  lemma NoDifference(a: bv16, b: bv16)
    requires a ^ b == 0
    ensures a == b
  {
  }

  // A block is taken exactly if, the two check bytes behind it, it is a multiple of the
  // generator.
  lemma TakenIff(s: seq<octet>, hi: octet, lo: octet)
    ensures Crc16(s) == CrcOf(hi, lo) <==> Remainder(BitsOf(s) + (Eight(hi) + Eight(lo))) == Zeros(16)
  {
    hide CrcBit, Sixteen, Eight, TakenOff, Remainder, CrcOf;
    var m, r, c := BitsOf(s), Sixteen(Crc16(s)), Eight(hi) + Eight(lo);
    CrcIsRemainder(s);
    CheckBits(hi, lo);
    SameSixteen(Crc16(s), CrcOf(hi, lo));
    assert m + c == Add(m + Zeros(16), Zeros(|m|) + c);
    Linear(m + Zeros(16), Zeros(|m|) + c);
    LeadingZeros(|m|, c);
    Short(c);
    ZeroSum(r, c);
  }

  lemma ZeroSum(a: Bits, b: Bits)
    requires |a| == |b|
    ensures Add(a, b) == Zeros(|a|) <==> a == b
  {
    if Add(a, b) == Zeros(|a|) {
      forall i | 0 <= i < |a| ensures a[i] == b[i] { assert !Add(a, b)[i]; }
    }
  }

  lemma Short(m: Bits)
    requires |m| == 16
    ensures Remainder(m) == m
  {
  }

  ghost predicate Nonzero(m: Bits) {
    exists i :: 0 <= i < |m| && m[i]
  }

  // Sixteen bits other than zero are never divided away.
  lemma {:induction false} StaysNonzero(w: Bits, n: nat)
    requires |w| == 16 && Nonzero(w)
    ensures Nonzero(Remainder(w + Zeros(n)))
    decreases n
  {
    if n == 0 {
      assert w + Zeros(0) == w;
    } else {
      var m := w + Zeros(n);
      var rest := TakenOff(m)[1..];
      var v := rest[..16];
      assert rest == v + Zeros(n - 1);
      if w[0] {
        assert v[15];
      } else {
        var i :| 0 <= i < 16 && w[i];
        assert v[i - 1] == w[i];
      }
      StaysNonzero(v, n - 1);
    }
  }

  // Octets tell from their bits.
  lemma {:induction false} SameBits(a: seq<octet>, b: seq<octet>)
    requires |a| == |b| && BitsOf(a) == BitsOf(b)
    ensures a == b
    decreases |a|
  {
    hide Eight;
    if a != [] {
      var n := |a| - 1;
      LastBits(a);
      LastBits(b);
      SameBits(a[..n], b[..n]);
      SameEight(a[n], b[n]);
      assert a == a[..n] + [a[n]] && b == b[..n] + [b[n]];
    }
  }

  lemma LastBits(a: seq<octet>)
    requires a != []
    ensures var n := |a| - 1; BitsOf(a)[..8 * n] == BitsOf(a[..n]) && BitsOf(a)[8 * n..] == Eight(a[n])
  {
    hide Eight;
  }

  lemma SameEight(a: octet, b: octet)
    requires Eight(a) == Eight(b)
    ensures a == b
  {
    hide Sixteen, Eight;
    HighBits(a);
    HighBits(b);
    SameSixteen((a as bv16) << 8, (b as bv16) << 8);
    SameShifted(a, b);
  }

  lemma SameShifted(a: octet, b: octet)
    requires (a as bv16) << 8 == (b as bv16) << 8
    ensures a == b
  {
  }

  // Blocks that differ in one run of at most sixteen bits have different check sums.
  lemma BurstShows(a: seq<octet>, b: seq<octet>, k: nat, n: nat)
    requires |a| == |b| && a != b && n <= 16 && k + n <= 8 * |a|
    requires forall i :: 0 <= i < 8 * |a| && !(k <= i < k + n) ==> BitsOf(a)[i] == BitsOf(b)[i]
    ensures Crc16(a) != Crc16(b)
  {
    hide BitsOf, Remainder, Sixteen, Crc16;
    if BitsOf(a) == BitsOf(b) { SameBits(a, b); }
    var x, y := BitsOf(a), BitsOf(b);
    DivideApart(x, y, k, n);
    CrcIsRemainder(a);
    CrcIsRemainder(b);
  }

  lemma RunInFront(e: Bits, n: nat, w: Bits)
    requires n <= 16 && n <= |e| && w == e + Zeros(16) && forall i :: n <= i < |e| ==> !e[i]
    ensures w == w[..16] + Zeros(|w| - 16) && forall i :: 0 <= i < |e| && e[i] ==> i < 16 && w[..16][i]
  {
  }

  lemma DivideApart(x: Bits, y: Bits, k: nat, n: nat)
    requires |x| == |y| && x != y && n <= 16 && k + n <= |x|
    requires forall i :: 0 <= i < |x| && !(k <= i < k + n) ==> x[i] == y[i]
    ensures Remainder(x + Zeros(16)) != Remainder(y + Zeros(16))
  {
    hide Remainder;
    var d := Add(x, y);
    var w := d[k..] + Zeros(16);
    Linear(x + Zeros(16), y + Zeros(16));
    assert Add(x + Zeros(16), y + Zeros(16)) == Zeros(k) + w;
    LeadingZeros(k, w);
    RunInFront(d[k..], n, w);
    var i :| 0 <= i < |x| && x[i] != y[i];
    assert d[i] && d[k..][i - k];
    StaysNonzero(w[..16], |w| - 16);
    ZeroSum(Remainder(x + Zeros(16)), Remainder(y + Zeros(16)));
  }
}
