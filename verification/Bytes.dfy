// Octets and the little-endian words the FAT structures are made of.
module Bytes {
  type byte = b: int | 0 <= b < 0x100

  // LD_WORD: two octets, low one first.
  function LdWord(lo: byte, hi: byte): (w: nat)
    ensures w < 0x1_0000
    ensures w % 0x100 == lo && w / 0x100 == hi
  {
    lo + 0x100 * hi
  }

  // LD_DWORD: four octets, low one first.
  function LdDword(b0: byte, b1: byte, b2: byte, b3: byte): (d: nat)
    ensures d < 0x1_0000_0000
    ensures d == LdWord(b0, b1) + 0x1_0000 * LdWord(b2, b3)
  {
    b0 + 0x100 * b1 + 0x1_0000 * b2 + 0x100_0000 * b3
  }

  // The number a run of octets stands for, the lowest octet first.
  ghost function Little(o: seq<byte>): nat {
    if o == [] then 0 else o[0] + 0x100 * Little(o[1..])
  }

  lemma LittleTwo(o: seq<byte>)
    requires |o| == 2
    ensures Little(o) == LdWord(o[0], o[1])
  {
    var r := o[1..];
    assert r == [o[1]] && r[1..] == [];
    assert Little(r) == o[1] + 0x100 * Little(r[1..]);
  }

  lemma LittleFour(o: seq<byte>)
    requires |o| == 4
    ensures Little(o) == LdDword(o[0], o[1], o[2], o[3])
  {
    var r := o[1..][1..];
    assert r == o[2..];
    assert Little(o) == o[0] + 0x100 * (o[1] + 0x100 * Little(r));
    LittleTwo(r);
  }

  // Two words of the same value have the same octets.
  lemma SameDword(a0: byte, a1: byte, a2: byte, a3: byte, b0: byte, b1: byte, b2: byte, b3: byte)
    requires LdDword(a0, a1, a2, a3) == LdDword(b0, b1, b2, b3)
    ensures a0 == b0 && a1 == b1 && a2 == b2 && a3 == b3
  {
    SameWord(a0, a1, b0, b1);
    SameWord(a2, a3, b2, b3);
  }

  lemma SameWord(a0: byte, a1: byte, b0: byte, b1: byte)
    ensures LdWord(a0, a1) == LdWord(b0, b1) <==> a0 == b0 && a1 == b1
  {
  }

  // An octet turned right by one bit: each bit moves down, bit 0 to the top.
  ghost function Turned(b: byte): byte {
    b / 2 % 2 + 2 * (b / 4 % 2) + 4 * (b / 8 % 2) + 8 * (b / 16 % 2) + 16 * (b / 32 % 2) + 32 * (b / 64 % 2)
    + 64 * (b / 128 % 2) + 128 * (b % 2)
  }

  lemma TurnedHalf(b: byte)
    ensures Turned(b) == b / 2 + b % 2 * 0x80
  {
    var q1: nat, q2: nat, q3: nat, q4: nat, q5: nat, q6: nat, q7: nat :=
      b / 2, b / 4, b / 8, b / 16, b / 32, b / 64, b / 128;
    assert q2 == q1 / 2 && q3 == q2 / 2 && q4 == q3 / 2 && q5 == q4 / 2 && q6 == q5 / 2 && q7 == q6 / 2;
    assert q7 < 2;
    EightBits(q1, q2, q3, q4, q5, q6, q7, b % 2);
  }

  lemma EightBits(q1: nat, q2: nat, q3: nat, q4: nat, q5: nat, q6: nat, q7: nat, low: nat)
    requires q2 == q1 / 2 && q3 == q2 / 2 && q4 == q3 / 2 && q5 == q4 / 2 && q6 == q5 / 2 && q7 == q6 / 2 < 2
    ensures q1 % 2 + 2 * (q2 % 2) + 4 * (q3 % 2) + 8 * (q4 % 2) + 16 * (q5 % 2) + 32 * (q6 % 2) + 64 * (q7 % 2)
            + 128 * low == q1 + low * 0x80
  {
  }
}
