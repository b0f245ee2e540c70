/**
 A test vector of RFC 3720, section B.4: the CRC-32C of 32 zero bytes is 0x8A9136AA.
 The register is followed on bit vectors, whose steps the solver evaluates, and
 related to its numeric form bit by bit.
 */
module CrcVector {
  import opened Words
  import opened Bytes
  import opened Crc
  import opened CrcDivision

  function Half(c: bv32): bv32 {
    c >> 1
  }

  function Low(c: bv32): nat {
    if c & 1 == 1 then 1 else 0
  }

  /** The number the low `w` bits spell. */
  function ToNat(c: bv32, w: nat): nat {
    if w == 0 then 0 else Low(c) + 2 * ToNat(Half(c), w - 1)
  }

  function Step(c: bv32): bv32 {
    if c & 1 == 1 then (c >> 1) ^ 0x82F6_3B78 else c >> 1
  }

  function Steps(c: bv32, n: nat): bv32
    decreases n
  {
    if n == 0 then c else Steps(Step(c), n - 1)
  }

  lemma XorParts(c: bv32, d: bv32)
    ensures Half(c ^ d) == Half(c) ^ Half(d)
    ensures Low(c ^ d) == if Low(c) != Low(d) then 1 else 0
  {}

  lemma Rejoin(r: nat, low: nat, half: nat)
    requires r % 2 == low && r / 2 == half
    ensures r == low + 2 * half
  {}

  lemma XorJoins(p: nat, x: nat, q: nat, y: nat)
    requires p <= 1 && q <= 1
    ensures Xor(p + 2 * x, q + 2 * y) == (if p != q then 1 else 0) + 2 * Xor(x, y)
  {
    XorHalves(p + 2 * x, q + 2 * y);
    assert (p + 2 * x) / 2 == x && (q + 2 * y) / 2 == y;
    Rejoin(Xor(p + 2 * x, q + 2 * y), if p != q then 1 else 0, Xor(x, y));
  }

  lemma Peeled(c: bv32, w: nat) returns (low: nat, rest: nat)
    requires w > 0
    ensures low == Low(c) <= 1 && rest == ToNat(Half(c), w - 1) && ToNat(c, w) == low + 2 * rest
  {
    low, rest := Low(c), ToNat(Half(c), w - 1);
  }

  lemma {:induction false} ToNatXor(c: bv32, d: bv32, e: bv32, w: nat)
    requires e == c ^ d
    ensures ToNat(e, w) == Xor(ToNat(c, w), ToNat(d, w))
    decreases w
  {
    if w > 0 {
      XorParts(c, d);
      ToNatXor(Half(c), Half(d), Half(e), w - 1);
      var p, x := Peeled(c, w);
      var q, y := Peeled(d, w);
      var r, z := Peeled(e, w);
      XorJoins(p, x, q, y);
    }
  }

  // ------------------------------------------------------------------ 32 bits are enough

  predicate Fits(c: bv32, w: nat) {
    if w == 0 then c == 0 else Fits(Half(c), w - 1)
  }

  lemma FitsNibble(c: bv32, d: bv32, w: nat)
    requires d == c >> 4 && Fits(d, w)
    ensures Fits(c, 4 + w)
  {
    var c1, c2, c3 := Half(c), Half(Half(c)), Half(Half(Half(c)));
    assert Half(c3) == d;
    assert Fits(c3, 1 + w) && Fits(c2, 2 + w) && Fits(c1, 3 + w);
  }

  lemma AllFit(c: bv32)
    ensures Fits(c, 32)
  {
    assert Fits(0, 0);
    FitsNibble(c >> 28, 0, 0);
    FitsNibble(c >> 24, c >> 28, 4);
    FitsNibble(c >> 20, c >> 24, 8);
    FitsNibble(c >> 16, c >> 20, 12);
    FitsNibble(c >> 12, c >> 16, 16);
    FitsNibble(c >> 8, c >> 12, 20);
    FitsNibble(c >> 4, c >> 8, 24);
    FitsNibble(c, c >> 4, 28);
  }

  lemma {:induction false} NoMoreBits(c: bv32, w: nat)
    requires Fits(c, w)
    ensures ToNat(c, w + 1) == ToNat(c, w)
    decreases w
  {
    if w > 0 {
      NoMoreBits(Half(c), w - 1);
    }
  }

  lemma {:induction false} ToNatBelow(c: bv32, w: nat)
    ensures ToNat(c, w) < Pow2(w)
    decreases w
  {
    if w > 0 {
      ToNatBelow(Half(c), w - 1);
    }
  }

  lemma ValueBelow(c: bv32)
    ensures ToNat(c, 32) <= 0xFFFF_FFFF
  {
    Pow2Widths();
    ToNatBelow(c, 32);
  }

  /** The numeric value of a register. */
  function Value(c: bv32): u32 {
    ValueBelow(c);
    ToNat(c, 32)
  }

  lemma ValueParts(c: bv32)
    ensures Value(c) == Low(c) + 2 * Value(Half(c)) && Low(c) <= 1
  {
    AllFit(c);
    NoMoreBits(Half(c), 31);
  }

  // -------------------------------------------------------------------------- constants

  function LowNibble(c: bv32): nat {
    Low(c) + 2 * Low(Half(c)) + 4 * Low(Half(Half(c))) + 8 * Low(Half(Half(Half(c))))
  }

  lemma PeelNibble(c: bv32, w: nat)
    ensures ToNat(c, w + 4) == LowNibble(c) + 16 * ToNat(Half(Half(Half(Half(c)))), w)
  {
    var p0, r0 := Peeled(c, w + 4);
    var p1, r1 := Peeled(Half(c), w + 3);
    var p2, r2 := Peeled(Half(Half(c)), w + 2);
    var p3, r3 := Peeled(Half(Half(Half(c))), w + 1);
  }

  lemma FourHalves(c: bv32)
    ensures Half(Half(Half(Half(c)))) == c >> 4
  {}

  lemma Extend(c: bv32, d: bv32, w: nat, n: nat, k: nat)
    requires d == c >> 4 && ToNat(d, w) == n && ToNat(c, 4) == k
    ensures ToNat(c, w + 4) == 16 * n + k
  {
    FourHalves(c);
    PeelNibble(c, w);
    PeelNibble(c, 0);
  }

  lemma OnesValue()
    ensures ToNat(0xFFFF_FFFF, 32) == 0xFFFF_FFFF
  {
    Extend(0xF, 0x0, 0, 0x0, 0xF);
    Extend(0xFF, 0xF, 4, 0xF, 0xF);
    Extend(0xFFF, 0xFF, 8, 0xFF, 0xF);
    Extend(0xFFFF, 0xFFF, 12, 0xFFF, 0xF);
    Extend(0xF_FFFF, 0xFFFF, 16, 0xFFFF, 0xF);
    Extend(0xFF_FFFF, 0xF_FFFF, 20, 0xF_FFFF, 0xF);
    Extend(0xFFF_FFFF, 0xFF_FFFF, 24, 0xFF_FFFF, 0xF);
    Extend(0xFFFF_FFFF, 0xFFF_FFFF, 28, 0xFFF_FFFF, 0xF);
  }

  lemma PolyValue()
    ensures ToNat(0x82F6_3B78, 32) == 0x82F6_3B78
  {
    Extend(0x8, 0x0, 0, 0x0, 0x8);
    Extend(0x82, 0x8, 4, 0x8, 0x2);
    Extend(0x82F, 0x82, 8, 0x82, 0xF);
    Extend(0x82F6, 0x82F, 12, 0x82F, 0x6);
    Extend(0x8_2F63, 0x82F6, 16, 0x82F6, 0x3);
    Extend(0x82_F63B, 0x8_2F63, 20, 0x8_2F63, 0xB);
    Extend(0x82F_63B7, 0x82_F63B, 24, 0x82_F63B, 0x7);
    Extend(0x82F6_3B78, 0x82F_63B7, 28, 0x82F_63B7, 0x8);
  }

  lemma LastValue()
    ensures ToNat(0x756E_C955, 32) == 0x756E_C955
  {
    Extend(0x7, 0x0, 0, 0x0, 0x7);
    Extend(0x75, 0x7, 4, 0x7, 0x5);
    Extend(0x756, 0x75, 8, 0x75, 0x6);
    Extend(0x756E, 0x756, 12, 0x756, 0xE);
    Extend(0x7_56EC, 0x756E, 16, 0x756E, 0xC);
    Extend(0x75_6EC9, 0x7_56EC, 20, 0x7_56EC, 0x9);
    Extend(0x756_EC95, 0x75_6EC9, 24, 0x75_6EC9, 0x5);
    Extend(0x756E_C955, 0x756_EC95, 28, 0x756_EC95, 0x5);
  }

  // --------------------------------------------------------------------- the two registers

  lemma StepIs(c: bv32)
    ensures Step(c) == if Low(c) == 1 then Half(c) ^ 0x82F6_3B78 else Half(c)
  {}

  lemma BitStepIs(v: u32, low: nat, half: u32)
    requires v == low + 2 * half && low <= 1
    ensures BitStep(v) == if low == 1 then Xor32(half, POLY) else half
  {
    assert v % 2 == low && v / 2 == half;
  }

  lemma StepValue(c: bv32)
    ensures Value(Step(c)) == BitStep(Value(c))
  {
    StepIs(c);
    ValueParts(c);
    BitStepIs(Value(c), Low(c), Value(Half(c)));
    PolyValue();
    ToNatXor(Half(c), 0x82F6_3B78, Half(c) ^ 0x82F6_3B78, 32);
  }

  lemma {:induction false} StepsValue(c: bv32, n: nat)
    ensures Value(Steps(c, n)) == Iterate(BitStep, Value(c), n)
    decreases n
  {
    if n > 0 {
      StepValue(c);
      StepsValue(Step(c), n - 1);
    }
  }

  function ZeroBytes(n: nat): (s: seq<byte>)
    ensures |s| == n
  {
    if n == 0 then [] else [0] + ZeroBytes(n - 1)
  }

  lemma {:induction false} StepsAppend(c: bv32, m: nat, n: nat)
    ensures Steps(c, m + n) == Steps(Steps(c, m), n)
    decreases m
  {
    if m > 0 {
      StepsAppend(Step(c), m - 1, n);
    }
  }

  lemma XorZero(x: nat)
    ensures Xor(x, 0) == x
  {}

  lemma {:induction false} ZerosValue(c: bv32, n: nat)
    ensures Feed(Value(c), ZeroBytes(n)) == Value(Steps(c, 8 * n))
    decreases n
  {
    if n > 0 {
      XorZero(Value(c));
      StepsValue(c, 8);
      StepsAppend(c, 8, 8 * (n - 1));
      ZerosValue(Steps(c, 8), n - 1);
      assert ZeroBytes(n)[1..] == ZeroBytes(n - 1);
    }
  }

  lemma OneByte(c: bv32, d: bv32, e: bv32, n: nat)
    requires Steps(c, 8) == d && Steps(d, n) == e
    ensures Steps(c, n + 8) == e
  {
    StepsAppend(c, 8, n);
  }

  lemma Quarter1()
    ensures Steps(0xFFFF_FFFF, 64) == 0x73D7_4D75
  {
    assert Steps(0x73D7_4D75, 0) == 0x73D7_4D75;
    OneByte(0x44C1_9592, 0x73D7_4D75, 0x73D7_4D75, 0);
    OneByte(0xA8D5_8375, 0x44C1_9592, 0x73D7_4D75, 8);
    OneByte(0xBA8D_89CA, 0xA8D5_8375, 0x73D7_4D75, 16);
    OneByte(0xB798_B438, 0xBA8D_89CA, 0x73D7_4D75, 24);
    OneByte(0x9F9B_5C85, 0xB798_B438, 0x73D7_4D75, 32);
    OneByte(0x0E9E_882D, 0x9F9B_5C85, 0x73D7_4D75, 40);
    OneByte(0xAD82_ACAE, 0x0E9E_882D, 0x73D7_4D75, 48);
    OneByte(0xFFFF_FFFF, 0xAD82_ACAE, 0x73D7_4D75, 56);
  }

  lemma Quarter2()
    ensures Steps(0x73D7_4D75, 64) == 0xBD8F_6515
  {
    assert Steps(0xBD8F_6515, 0) == 0xBD8F_6515;
    OneByte(0xACF1_2BEF, 0xBD8F_6515, 0xBD8F_6515, 0);
    OneByte(0x8994_C80E, 0xACF1_2BEF, 0xBD8F_6515, 8);
    OneByte(0x43A4_5A1B, 0x8994_C80E, 0xBD8F_6515, 16);
    OneByte(0xD49F_4AA2, 0x43A4_5A1B, 0xBD8F_6515, 24);
    OneByte(0x552E_4907, 0xD49F_4AA2, 0xBD8F_6515, 32);
    OneByte(0x1C22_0F94, 0x552E_4907, 0xBD8F_6515, 40);
    OneByte(0x441A_975C, 0x1C22_0F94, 0xBD8F_6515, 48);
    OneByte(0x73D7_4D75, 0x441A_975C, 0xBD8F_6515, 56);
  }

  lemma Quarter3()
    ensures Steps(0xBD8F_6515, 64) == 0x7B04_1311
  {
    assert Steps(0x7B04_1311, 0) == 0x7B04_1311;
    OneByte(0xB8FC_461A, 0x7B04_1311, 0x7B04_1311, 0);
    OneByte(0xCD8F_89DA, 0xB8FC_461A, 0x7B04_1311, 8);
    OneByte(0x31A5_9F6E, 0xCD8F_89DA, 0x7B04_1311, 16);
    OneByte(0x433A_A9C1, 0x31A5_9F6E, 0x7B04_1311, 24);
    OneByte(0x4A6C_90A2, 0x433A_A9C1, 0x7B04_1311, 32);
    OneByte(0x36DA_32DB, 0x4A6C_90A2, 0x7B04_1311, 40);
    OneByte(0x2512_5C16, 0x36DA_32DB, 0x7B04_1311, 48);
    OneByte(0xBD8F_6515, 0x2512_5C16, 0x7B04_1311, 56);
  }

  lemma Quarter4()
    ensures Steps(0x7B04_1311, 64) == 0x756E_C955
  {
    assert Steps(0x756E_C955, 0) == 0x756E_C955;
    OneByte(0xE12C_83B4, 0x756E_C955, 0x756E_C955, 0);
    OneByte(0x17F3_4302, 0xE12C_83B4, 0x756E_C955, 8);
    OneByte(0xB401_2DC7, 0x17F3_4302, 0x756E_C955, 16);
    OneByte(0x0836_3896, 0xB401_2DC7, 0x756E_C955, 24);
    OneByte(0x195B_2188, 0x0836_3896, 0x756E_C955, 32);
    OneByte(0x2F69_2669, 0x195B_2188, 0x756E_C955, 40);
    OneByte(0xE24E_407F, 0x2F69_2669, 0x756E_C955, 48);
    OneByte(0x7B04_1311, 0xE24E_407F, 0x756E_C955, 56);
  }

  lemma AllSteps()
    ensures Steps(0xFFFF_FFFF, 256) == 0x756E_C955
  {
    Quarter1();
    Quarter2();
    Quarter3();
    Quarter4();
    StepsAppend(0xFFFF_FFFF, 64, 192);
    StepsAppend(0x73D7_4D75, 64, 128);
    StepsAppend(0xBD8F_6515, 64, 64);
  }

  lemma {:induction false} XorOnes(x: nat, w: nat)
    requires x < Pow2(w)
    ensures Xor(x, Pow2(w) - 1) == Pow2(w) - 1 - x
    decreases w
  {
    if w > 0 {
      XorOnes(x / 2, w - 1);
      XorHalves(x, Pow2(w) - 1);
      Rejoin(Xor(x, Pow2(w) - 1), 1 - x % 2, Pow2(w - 1) - 1 - x / 2);
    }
  }

  /** The vector: the checksum of 32 zero bytes, by the register and by the definition. */
  lemma ZerosVector()
    ensures Crc32c(ZeroBytes(32)) == Checksum(ZeroBytes(32)) == 0x8A91_36AA
  {
    OnesValue();
    LastValue();
    AllSteps();
    ZerosValue(0xFFFF_FFFF, 32);
    Pow2Widths();
    XorOnes(0x756E_C955, 32);
    RegisterIsStandard(ZeroBytes(32));
  }

  lemma {:induction false} ZeroBytesAre(n: nat)
    ensures forall i :: 0 <= i < n ==> ZeroBytes(n)[i] == 0
  {
    if n > 0 {
      ZeroBytesAre(n - 1);
    }
  }

  /** So 28 zero bytes followed by AA 36 91 8A verify, with the field at 28. */
  lemma VectorVerifies(buffer: seq<byte>)
    requires buffer == ZeroBytes(28) + [0xAA, 0x36, 0x91, 0x8A]
    ensures Verifies(buffer, 28)
  {
    ZeroBytesAre(28);
    ZeroBytesAre(32);
    assert buffer[..28] + [0, 0, 0, 0] + buffer[32..] == ZeroBytes(32);
    ZerosVector();
    VerifiesByStandard(buffer, 28);
  }
}
