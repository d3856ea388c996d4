/** The fixed residue of `Residue`, worked out in figures by folding hexadecimal digits. */
module ResidueConstant {
  import opened Bits
  import opened Crc
  import opened Residue

  /** A hexadecimal digit by its bits. */
  datatype Digit = Digit(b3: bool, b2: bool, b1: bool, b0: bool)

  const H0 := Digit(false, false, false, false)
  const H1 := Digit(false, false, false, true)
  const H2 := Digit(false, false, true, false)
  const H3 := Digit(false, false, true, true)
  const H4 := Digit(false, true, false, false)
  const H5 := Digit(false, true, false, true)
  const H6 := Digit(false, true, true, false)
  const H7 := Digit(false, true, true, true)
  const H8 := Digit(true, false, false, false)
  const H9 := Digit(true, false, false, true)
  const HA := Digit(true, false, true, false)
  const HB := Digit(true, false, true, true)
  const HC := Digit(true, true, false, false)
  const HD := Digit(true, true, false, true)
  const HE := Digit(true, true, true, false)
  const HF := Digit(true, true, true, true)

  function OfBit(b: bool): nat {
    if b then 1 else 0
  }

  function Value(d: Digit): nat {
    8 * OfBit(d.b3) + 4 * OfBit(d.b2) + 2 * OfBit(d.b1) + OfBit(d.b0)
  }

  function Sum(d: Digit, e: Digit): Digit {
    Digit(d.b3 != e.b3, d.b2 != e.b2, d.b1 != e.b1, d.b0 != e.b0)
  }

  lemma XorOfParts(x: nat, y: nat, a: nat, p: nat, b: nat, q: nat)
    requires x == 2 * a + p && y == 2 * b + q && p < 2 && q < 2
    ensures Xor(x, y) == 2 * Xor(a, b) + if p != q then 1 else 0
  {
    XorParts(x, y);
  }

  lemma XorOfBits(x: nat, y: nat, a: nat, p3: nat, p2: nat, p1: nat, p0: nat, b: nat, q3: nat, q2: nat, q1: nat, q0: nat)
    requires p3 < 2 && p2 < 2 && p1 < 2 && p0 < 2 && q3 < 2 && q2 < 2 && q1 < 2 && q0 < 2
    requires x == 16 * a + 8 * p3 + 4 * p2 + 2 * p1 + p0 && y == 16 * b + 8 * q3 + 4 * q2 + 2 * q1 + q0
    ensures Xor(x, y) == 16 * Xor(a, b) + (if p3 != q3 then 8 else 0) + (if p2 != q2 then 4 else 0)
                       + (if p1 != q1 then 2 else 0) + if p0 != q0 then 1 else 0
  {
    hide Xor;
    var a3, b3 := 2 * a + p3, 2 * b + q3;
    var a2, b2 := 2 * a3 + p2, 2 * b3 + q2;
    var a1, b1 := 2 * a2 + p1, 2 * b2 + q1;
    XorOfParts(x, y, a1, p0, b1, q0);
    XorOfParts(a1, b1, a2, p1, b2, q1);
    XorOfParts(a2, b2, a3, p2, b3, q2);
    XorOfParts(a3, b3, a, p3, b, q3);
  }

  lemma XorOfDigits(x: nat, y: nat, a: nat, d: Digit, b: nat, e: Digit)
    requires x == 16 * a + Value(d) && y == 16 * b + Value(e)
    ensures Xor(x, y) == 16 * Xor(a, b) + Value(Sum(d, e))
  {
    hide Xor;
    XorOfBits(x, y, a, OfBit(d.b3), OfBit(d.b2), OfBit(d.b1), OfBit(d.b0), b, OfBit(e.b3), OfBit(e.b2), OfBit(e.b1), OfBit(e.b0));
  }

  function OfDigits(d7: Digit, d6: Digit, d5: Digit, d4: Digit, d3: Digit, d2: Digit, d1: Digit, d0: Digit): nat {
    0x1000_0000 * Value(d7) + 0x100_0000 * Value(d6) + 0x10_0000 * Value(d5) + 0x1_0000 * Value(d4)
      + 0x1000 * Value(d3) + 0x100 * Value(d2) + 0x10 * Value(d1) + Value(d0)
  }

  lemma PolyDigits()
    ensures Value(H0) == 0 && Value(H2) == 2 && Value(H3) == 3 && Value(H8) == 8
    ensures Value(HB) == 0xB && Value(HD) == 0xD && Value(HE) == 0xE
  {}

  /** Adding the generator, digit by digit. */
  lemma PlusPoly(d7: Digit, d6: Digit, d5: Digit, d4: Digit, d3: Digit, d2: Digit, d1: Digit, d0: Digit)
    ensures Xor(OfDigits(d7, d6, d5, d4, d3, d2, d1, d0), POLY) ==
            OfDigits(Sum(d7, HE), Sum(d6, HD), Sum(d5, HB), Sum(d4, H8), Sum(d3, H8), Sum(d2, H3), Sum(d1, H2), Sum(d0, H0))
  {
    hide Xor, Sum;
    var x := OfDigits(d7, d6, d5, d4, d3, d2, d1, d0);
    var h1 := Value(d7);
    var h2 := 16 * h1 + Value(d6);
    var h3 := 16 * h2 + Value(d5);
    var h4 := 16 * h3 + Value(d4);
    var h5 := 16 * h4 + Value(d3);
    var h6 := 16 * h5 + Value(d2);
    var h7 := 16 * h6 + Value(d1);
    PolyDigits();
    hide Value;
    XorOfDigits(x, POLY, h7, d0, 0xEDB_8832, H0);
    XorOfDigits(h7, 0xEDB_8832, h6, d1, 0xED_B883, H2);
    XorOfDigits(h6, 0xED_B883, h5, d2, 0xE_DB88, H3);
    XorOfDigits(h5, 0xE_DB88, h4, d3, 0xEDB8, H8);
    XorOfDigits(h4, 0xEDB8, h3, d4, 0xEDB, H8);
    XorOfDigits(h3, 0xEDB, h2, d5, 0xED, HB);
    XorOfDigits(h2, 0xED, h1, d6, 0xE, HD);
    XorOfDigits(h1, 0xE, 0, d7, 0, HE);
    XorZero(0);
  }

  lemma OneStep(c: Word)
    ensures Steps(c, 1) == Step(c) && Steps(c, 0) == c
  {
    assert Steps(c, 1) == Steps(Step(c), 0);
  }

  lemma OddPart(half: nat, k: nat, c: Word)
    requires c == (2 * half + 1) * Pow2(k)
    ensures 2 * half + 1 <= c
  {
    assert (2 * half + 1) * Pow2(k) == (2 * half + 1) * (Pow2(k) - 1) + (2 * half + 1);
  }

  /** Shifting out `k` zeros and then a one, from the register reached after `m` shifts. */
  lemma Fold(m: nat, k: nat, c: Word, half: nat, folded: Word)
    requires Steps(PRESET, m) == c && c == (2 * half + 1) * Pow2(k) && Xor(half, POLY) == folded
    ensures Steps(PRESET, m + k + 1) == folded
  {
    hide Xor, Pow2;
    OddPart(half, k, c);
    var odd: Word := 2 * half + 1;
    StepsAdd(PRESET, m, k + 1);
    StepsAdd(c, k, 1);
    StepsShift(odd, k);
    OneStep(odd);
    hide Steps;
    assert odd / 2 == half && odd % 2 == 1;
  }

  lemma SmallPowers()
    ensures Pow2(0) == 1 && Pow2(1) == 2 && Pow2(2) == 4 && Pow2(3) == 8 && Pow2(8) == 0x100
  {}

  lemma FirstShifts()
    ensures Steps(PRESET, 4) == 0xB242_0DE3
  {
    OneStep(PRESET);
    SmallPowers();
    hide Xor, Steps, Pow2;
    Fold(0, 0, 0xFFFF_FFFF, 0x7FFF_FFFF, 0x9247_7CDF) by { PlusPoly(H7, HF, HF, HF, HF, HF, HF, HF); }
    Fold(1, 0, 0x9247_7CDF, 0x4923_BE6F, 0xA49B_3D4F) by { PlusPoly(H4, H9, H2, H3, HB, HE, H6, HF); }
    Fold(2, 0, 0xA49B_3D4F, 0x524D_9EA7, 0xBFF5_1D87) by { PlusPoly(H5, H2, H4, HD, H9, HE, HA, H7); }
    Fold(3, 0, 0xBFF5_1D87, 0x5FFA_8EC3, 0xB242_0DE3) by { PlusPoly(H5, HF, HF, HA, H8, HE, HC, H3); }
  }

  lemma MoreShifts()
    ensures Steps(PRESET, 13) == 0xF160_7BC7
  {
    FirstShifts();
    SmallPowers();
    hide Xor, Steps, Pow2;
    Fold(4, 0, 0xB242_0DE3, 0x5921_06F1, 0xB499_85D1) by { PlusPoly(H5, H9, H2, H1, H0, H6, HF, H1); }
    Fold(5, 0, 0xB499_85D1, 0x5A4C_C2E8, 0xB7F4_41C8) by { PlusPoly(H5, HA, H4, HC, HC, H2, HE, H8); }
    Fold(6, 3, 0xB7F4_41C8, 0x0B7F_441C, 0xE6C7_C73C) by { PlusPoly(H0, HB, H7, HF, H4, H4, H1, HC); }
    Fold(10, 2, 0xE6C7_C73C, 0x1CD8_F8E7, 0xF160_7BC7) by { PlusPoly(H1, HC, HD, H8, HF, H8, HE, H7); }
  }

  lemma EvenMoreShifts()
    ensures Steps(PRESET, 25) == 0xEDE7_9056
  {
    MoreShifts();
    SmallPowers();
    hide Xor, Steps, Pow2;
    Fold(13, 0, 0xF160_7BC7, 0x78B0_3DE3, 0x9508_BEC3) by { PlusPoly(H7, H8, HB, H0, H3, HD, HE, H3); }
    Fold(14, 0, 0x9508_BEC3, 0x4A84_5F61, 0xA73C_DC41) by { PlusPoly(H4, HA, H8, H4, H5, HF, H6, H1); }
    Fold(15, 0, 0xA73C_DC41, 0x539E_6E20, 0xBE26_ED00) by { PlusPoly(H5, H3, H9, HE, H6, HE, H2, H0); }
    Fold(16, 8, 0xBE26_ED00, 0x005F_1376, 0xEDE7_9056) by { PlusPoly(H0, H0, H5, HF, H1, H3, H7, H6); }
  }

  lemma LastShifts()
    ensures Steps(PRESET, 32) == 0xDEBB_20E3
  {
    EvenMoreShifts();
    SmallPowers();
    hide Xor, Steps, Pow2;
    Fold(25, 1, 0xEDE7_9056, 0x3B79_E415, 0xD6C1_6735) by { PlusPoly(H3, HB, H7, H9, HE, H4, H1, H5); }
    Fold(27, 0, 0xD6C1_6735, 0x6B60_B39A, 0x86D8_30BA) by { PlusPoly(H6, HB, H6, H0, HB, H3, H9, HA); }
    Fold(28, 1, 0x86D8_30BA, 0x21B6_0C2E, 0xCC0E_8F0E) by { PlusPoly(H2, H1, HB, H6, H0, HC, H2, HE); }
    Fold(30, 1, 0xCC0E_8F0E, 0x3303_A3C3, 0xDEBB_20E3) by { PlusPoly(H3, H3, H0, H3, HA, H3, HC, H3); }
  }

  lemma ResidueValue()
    ensures FixedResidue() == 0x2144_DF1C
  {
    ResidueIsOnesShifted();
    LastShifts();
    hide Steps;
  }

  /** A message followed by four bytes has the CRC 0x2144DF1C exactly when they are its own CRC, low byte first. */
  lemma {:induction false} ResidueInFigures(m: seq<Byte>, field: seq<Byte>)
    requires |field| == 4
    ensures Crc32(m + field) == 0x2144_DF1C <==> field == ToLittleEndian(Crc32(m))
  {
    hide Crc32, FromLittleEndian, ToLittleEndian;
    ResidueValue();
    ResidueIffOwnCrc(m, field);
    LittleEndianOnto(field);
    LittleEndianRoundTrip(Crc32(m));
  }
}
