/** The one-byte checksum over MAC addresses (beken378/app/airkiss/airkiss_main.c, `calcrc_1byte` and
    `calcrc_bytes`). */
module Crc8 {

  /** One bit of the byte `a` through the register. */
  function Step(crc: bv8, a: bv8): bv8 {
    if (crc ^ a) & 0x01 != 0 then ((crc ^ 0x18) >> 1) | 0x80 else crc >> 1
  }

  function Half(a: bv8): bv8 {
    a >> 1
  }

  function Xor(a: bv8, b: bv8): bv8 {
    a ^ b
  }

  /** `n` bits, lowest first. */
  function Steps(n: nat, crc: bv8, a: bv8): bv8 {
    if n == 0 then crc else Steps(n - 1, Step(crc, a), Half(a))
  }

  function CrcByte(a: bv8): bv8 {
    Steps(8, 0, a)
  }

  function CrcBytes(d: seq<bv8>, crc: bv8): bv8 {
    if d == [] then crc else CrcBytes(d[1..], CrcByte(Xor(crc, d[0])))
  }

  method CalcrcByte(abyte: bv8) returns (crc: bv8)
    ensures crc == CrcByte(abyte)
  {
    crc := 0;
    var a := abyte;
    for i := 0 to 8
      invariant Steps(8 - i, crc, a) == CrcByte(abyte)
    {
      ghost var c0, a0 := crc, a;
      if (crc ^ a) & 0x01 != 0 {
        crc := crc ^ 0x18;
        crc := crc >> 1;
        crc := crc | 0x80;
      } else {
        crc := crc >> 1;
      }
      a := a >> 1;
      assert crc == Step(c0, a0);
    }
  }

  method CalcrcBytes(p: seq<bv8>) returns (crc: bv8)
    ensures crc == CrcBytes(p, 0)
  {
    crc := 0;
    for i := 0 to |p|
      invariant CrcBytes(p[i..], crc) == CrcBytes(p, 0)
    {
      crc := CalcrcByte(crc ^ p[i]);
    }
  }

  /** The register is the feedback shift register of x^8 + x^5 + x^4 + 1, lowest bit first. */
  lemma StepIsShiftRegister(crc: bv8, a: bv8)
    ensures Step(crc, a) == (crc >> 1) ^ (if (crc ^ a) & 1 == 1 then 0x8C else 0)
  {
  }

  lemma StepLinear(c: bv8, a: bv8, d: bv8, b: bv8)
    ensures Step(Xor(c, d), Xor(a, b)) == Xor(Step(c, a), Step(d, b))
    ensures Half(Xor(a, b)) == Xor(Half(a), Half(b))
  {
    hide Step;
    RawStepLinear(c, a, d, b);
  }

  lemma RawStepLinear(c: bv8, a: bv8, d: bv8, b: bv8)
    ensures Step(c ^ d, a ^ b) == Step(c, a) ^ Step(d, b)
  {
  }

  lemma {:induction false} StepsLinear(n: nat, c: bv8, a: bv8, d: bv8, b: bv8)
    ensures Steps(n, Xor(c, d), Xor(a, b)) == Xor(Steps(n, c, a), Steps(n, d, b))
  {
    hide Step, Half, Xor;
    if n > 0 {
      StepLinear(c, a, d, b);
      StepsLinear(n - 1, Step(c, a), Half(a), Step(d, b), Half(b));
    }
  }

  /** XOR goes through. */
  lemma CrcByteLinear(a: bv8, b: bv8)
    ensures CrcByte(Xor(a, b)) == Xor(CrcByte(a), CrcByte(b))
  {
    hide Step, Half, Xor;
    StepsLinear(8, 0, a, 0, b);
    assert Xor(0, 0) == 0 by { XorZero(0, 0); }
  }

  function Unrolled(a: bv8): bv8 {
    var c1 := Step(0, a);
    var c2 := Step(c1, a >> 1);
    var c3 := Step(c2, a >> 2);
    var c4 := Step(c3, a >> 3);
    var c5 := Step(c4, a >> 4);
    var c6 := Step(c5, a >> 5);
    var c7 := Step(c6, a >> 6);
    Step(c7, a >> 7)
  }

  lemma UnrolledOnlyZero(a: bv8)
    ensures Unrolled(a) == 0 <==> a == 0
  {
  }

  lemma Shifts(a: bv8)
    ensures Half(a) == a >> 1 && Half(a >> 1) == a >> 2 && Half(a >> 2) == a >> 3 && Half(a >> 3) == a >> 4
    ensures Half(a >> 4) == a >> 5 && Half(a >> 5) == a >> 6 && Half(a >> 6) == a >> 7
  {
  }

  lemma Unroll(a: bv8)
    ensures CrcByte(a) == Unrolled(a)
  {
    hide Step, Half;
    Shifts(a);
    var c1 := Step(0, a);
    var c2 := Step(c1, a >> 1);
    var c3 := Step(c2, a >> 2);
    var c4 := Step(c3, a >> 3);
    var c5 := Step(c4, a >> 4);
    var c6 := Step(c5, a >> 5);
    var c7 := Step(c6, a >> 6);
    assert Steps(8, 0, a) == Steps(7, c1, a >> 1) == Steps(6, c2, a >> 2) == Steps(5, c3, a >> 3);
    assert Steps(5, c3, a >> 3) == Steps(4, c4, a >> 4) == Steps(3, c5, a >> 5) == Steps(2, c6, a >> 6);
    assert Steps(2, c6, a >> 6) == Steps(1, c7, a >> 7) == Step(c7, a >> 7);
  }

  /** What the eight bits of a byte do to an empty register; by linearity this is the whole table. */
  lemma Basis()
    ensures CrcByte(0x01) == 0x5E && CrcByte(0x02) == 0xBC && CrcByte(0x04) == 0x61 && CrcByte(0x08) == 0xC2
    ensures CrcByte(0x10) == 0x9D && CrcByte(0x20) == 0x23 && CrcByte(0x40) == 0x46 && CrcByte(0x80) == 0x8C
  {
    hide CrcByte;
    Unroll(0x01);
    Unroll(0x02);
    Unroll(0x04);
    Unroll(0x08);
    Unroll(0x10);
    Unroll(0x20);
    Unroll(0x40);
    Unroll(0x80);
  }

  lemma XorZero(a: bv8, b: bv8)
    ensures Xor(a, b) == 0 <==> a == b
  {
  }

  /** The byte checksum is a permutation of the bytes. */
  lemma CrcByteInjective(a: bv8, b: bv8)
    ensures CrcByte(a) == CrcByte(b) <==> a == b
  {
    hide CrcByte, Xor, Unrolled;
    CrcByteLinear(a, b);
    Unroll(Xor(a, b));
    UnrolledOnlyZero(Xor(a, b));
    XorZero(a, b);
    XorZero(CrcByte(a), CrcByte(b));
  }

  lemma XorCancels(a: bv8, b: bv8, c: bv8)
    ensures Xor(a, c) == Xor(b, c) <==> a == b
    ensures Xor(c, a) == Xor(c, b) <==> a == b
  {
  }

  /** Different registers stay different whatever follows. */
  lemma {:induction false} RegisterMatters(d: seq<bv8>, c: bv8, e: bv8)
    ensures CrcBytes(d, c) == CrcBytes(d, e) <==> c == e
  {
    hide CrcByte, Xor;
    if d != [] {
      XorCancels(c, e, d[0]);
      CrcByteInjective(Xor(c, d[0]), Xor(e, d[0]));
      RegisterMatters(d[1..], CrcByte(Xor(c, d[0])), CrcByte(Xor(e, d[0])));
    }
  }

  lemma {:induction false} CrcBytesChains(d: seq<bv8>, e: seq<bv8>, crc: bv8)
    ensures CrcBytes(d + e, crc) == CrcBytes(e, CrcBytes(d, crc))
  {
    hide CrcByte, Xor;
    if d == [] {
      assert d + e == e;
    } else {
      assert (d + e)[1..] == d[1..] + e;
      CrcBytesChains(d[1..], e, CrcByte(Xor(crc, d[0])));
    }
  }

  /** A byte more: it is put on the register, and the sum goes through the table. */
  lemma CrcBytesNext(d: seq<bv8>, b: bv8, crc: bv8)
    ensures CrcBytes([], crc) == crc
    ensures CrcBytes(d + [b], crc) == CrcByte(CrcBytes(d, crc) ^ b)
  {
    hide CrcByte;
    CrcBytesChains(d, [b], crc);
  }

  /** In a message of any length, replacing one byte by another one always changes the checksum. */
  lemma SingleByteDetected(before: seq<bv8>, a: bv8, b: bv8, after: seq<bv8>)
    ensures CrcBytes(before + [a] + after, 0) == CrcBytes(before + [b] + after, 0) <==> a == b
  {
    hide CrcByte, Xor;
    var c := CrcBytes(before, 0);
    CrcBytesChains(before + [a], after, 0);
    CrcBytesChains(before, [a], 0);
    CrcBytesChains(before + [b], after, 0);
    CrcBytesChains(before, [b], 0);
    assert CrcBytes([a], c) == CrcByte(Xor(c, a)) && CrcBytes([b], c) == CrcByte(Xor(c, b));
    XorCancels(a, b, c);
    CrcByteInjective(Xor(c, a), Xor(c, b));
    RegisterMatters(after, CrcByte(Xor(c, a)), CrcByte(Xor(c, b)));
  }

  /** A message followed by its checksum, and by no other byte, has checksum zero. */
  lemma Residue(d: seq<bv8>, last: bv8)
    ensures CrcBytes(d + [last], 0) == 0 <==> last == CrcBytes(d, 0)
  {
    hide CrcByte, Xor;
    var c := CrcBytes(d, 0);
    CrcBytesChains(d, [last], 0);
    assert CrcBytes([last], c) == CrcByte(Xor(c, last));
    XorZero(c, last);
    CrcByteInjective(Xor(c, last), 0);
    ZeroByte();
  }

  lemma ZeroByte()
    ensures CrcByte(0) == 0
  {
    Unroll(0);
    UnrolledOnlyZero(0);
  }
}
