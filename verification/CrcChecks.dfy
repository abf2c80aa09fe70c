/** Which checks the registers are: their values on the nine digits 1 to 9, and the entries of their
    tables at the powers of two, which fix the tables. */
module CrcChecks {
  import opened CrcTheory
  import opened Crc
  import opened FastCrc
  import opened FastCrc16

  // ----- Eight shifts, written out -----

  function Down(p: bv32, x: bv32): bv32 {
    if x & 1 == 1 then (x >> 1) ^ p else x >> 1
  }

  function Up(p: bv32, x: bv32): bv32 {
    if x & 0x8000_0000 != 0 then (x << 1) ^ p else x << 1
  }

  lemma {:induction false} ShiftIsDown(p: bv32, x: bv32)
    ensures ReflectedShift(p)(x) == Down(p, x)
  {
    ReflectedShiftParts(p, x, x >> 1, if x & 1 == 1 then p else 0);
    AddedOrNot(x >> 1, p, x & 1 == 1);
  }

  lemma {:induction false} ShiftIsUp(p: bv32, x: bv32)
    ensures ForwardShift(p)(x) == Up(p, x)
  {
    ForwardShiftParts(p, x, x << 1, if x & 0x8000_0000 != 0 then p else 0);
    AddedOrNot(x << 1, p, x & 0x8000_0000 != 0);
  }

  lemma {:induction false} AddedOrNot(moved: bv32, p: bv32, out: bool)
    ensures OPS.xor(moved, if out then p else 0) == if out then moved ^ p else moved
  {
    if !out {
      NothingAdded(moved);
    }
  }

  lemma {:induction false} NothingAdded(moved: bv32)
    ensures OPS.xor(moved, 0) == moved
  {}

  lemma {:induction false} FourTimes(s: bv32 -> bv32, f: (bv32, bv32) -> bv32, p: bv32, x: bv32)
    requires forall y :: s(y) == f(p, y)
    ensures Times(s, 4, x) == f(p, f(p, f(p, f(p, x))))
  {}

  lemma {:induction false} EightTimes(s: bv32 -> bv32, f: (bv32, bv32) -> bv32, p: bv32, x: bv32)
    requires forall y :: s(y) == f(p, y)
    ensures Times(s, 8, x) == f(p, f(p, f(p, f(p, f(p, f(p, f(p, f(p, x))))))))
  {
    var y := f(p, f(p, f(p, f(p, x))));
    FourTimes(s, f, p, x);
    FourTimes(s, f, p, y);
    TimesAdd(s, 4, 4, x);
  }

  lemma {:induction false} TimesAdd(s: bv32 -> bv32, m: nat, n: nat, x: bv32)
    ensures Times(s, m + n, x) == Times(s, n, Times(s, m, x))
    decreases m
  {
    if m > 0 {
      TimesAdd(s, m - 1, n, s(x));
    }
  }

  /** Eight shifts of a reflected register, and of one whose high bit goes out first. */
  lemma {:induction false} EightDown(p: bv32, x: bv32, next: bv32)
    requires next == Down(p, Down(p, Down(p, Down(p, Down(p, Down(p, Down(p, Down(p, x))))))))
    ensures Times(ReflectedShift(p), 8, x) == next
  {
    forall y ensures ReflectedShift(p)(y) == Down(p, y) {
      ShiftIsDown(p, y);
    }
    EightTimes(ReflectedShift(p), Down, p, x);
  }

  lemma {:induction false} EightUp(p: bv32, x: bv32, next: bv32)
    requires next == Up(p, Up(p, Up(p, Up(p, Up(p, Up(p, Up(p, Up(p, x))))))))
    ensures Times(ForwardShift(p), 8, x) == next
  {
    forall y ensures ForwardShift(p)(y) == Up(p, y) {
      ShiftIsUp(p, y);
    }
    EightTimes(ForwardShift(p), Up, p, x);
  }

  // ----- A byte of a message -----

  function TakenDown(p: bv32, r: bv32, b: bv8): bv32 {
    ReflectedBits(p, r, b as bv32, 8)
  }

  function TakenUp(p: bv32, r: bv32, b: bv8): bv32 {
    ForwardBits(p, r, (b as bv32) << 24, 8)
  }

  function StepDown(p: bv32): (bv32, bv8) -> bv32 {
    (r, b) => TakenDown(p, r, b)
  }

  function StepUp(p: bv32): (bv32, bv8) -> bv32 {
    (r, b) => TakenUp(p, r, b)
  }

  lemma {:induction false} ByteDown(p: bv32, r: bv32, b: bv8, x: bv32, next: bv32)
    requires x == r ^ (b as bv32)
    requires next == Down(p, Down(p, Down(p, Down(p, Down(p, Down(p, Down(p, Down(p, x))))))))
    ensures StepDown(p)(r, b) == next
  {
    EightDown(p, x, next);
    ReflectedBitsAtOnce(p, r, b as bv32, 8, 8);
    assert OPS.xor(r, b as bv32) == x;
  }

  lemma {:induction false} ByteUp(p: bv32, r: bv32, b: bv8, x: bv32, next: bv32)
    requires x == r ^ ((b as bv32) << 24)
    requires next == Up(p, Up(p, Up(p, Up(p, Up(p, Up(p, Up(p, Up(p, x))))))))
    ensures StepUp(p)(r, b) == next
  {
    EightUp(p, x, next);
    ForwardBitsAtOnce(p, r, (b as bv32) << 24, 8, 8);
    assert OPS.xor(r, (b as bv32) << 24) == x;
  }

  // ----- The checks of the nine digits -----

  function Fold(f: (bv32, bv8) -> bv32, r: bv32, data: seq<bv8>): bv32
    decreases data
  {
    if |data| == 0 then r else Fold(f, f(r, data[0]), data[1..])
  }

  lemma {:induction false} ReflectedIsFold(p: bv32, r: bv32, data: seq<bv8>)
    ensures Reflected(p, r, data) == Fold(StepDown(p), r, data)
    decreases data
  {
    if |data| > 0 {
      ReflectedIsFold(p, ReflectedBits(p, r, data[0] as bv32, 8), data[1..]);
    }
  }

  lemma {:induction false} ForwardIsFold(p: bv32, r: bv32, data: seq<bv8>)
    ensures Forward(p, r, data) == Fold(StepUp(p), r, data)
    decreases data
  {
    if |data| > 0 {
      ForwardIsFold(p, ForwardBits(p, r, (data[0] as bv32) << 24, 8), data[1..]);
    }
  }

  lemma {:induction false} FoldOne(f: (bv32, bv8) -> bv32, r: bv32, b: bv8, rest: seq<bv8>, next: bv32, end: bv32)
    requires f(r, b) == next && Fold(f, next, rest) == end
    ensures Fold(f, r, [b] + rest) == end
  {
    assert ([b] + rest)[1..] == rest;
  }

  const DIGITS: seq<bv8> := [0x31, 0x32, 0x33, 0x34, 0x35, 0x36, 0x37, 0x38, 0x39]

  lemma {:induction false} FoldDigits(f: (bv32, bv8) -> bv32, r0: bv32, r1: bv32, r2: bv32, r3: bv32, r4: bv32,
                                      r5: bv32, r6: bv32, r7: bv32, r8: bv32, r9: bv32)
    requires f(r0, 0x31) == r1 && f(r1, 0x32) == r2 && f(r2, 0x33) == r3
    requires f(r3, 0x34) == r4 && f(r4, 0x35) == r5 && f(r5, 0x36) == r6
    requires f(r6, 0x37) == r7 && f(r7, 0x38) == r8 && f(r8, 0x39) == r9
    ensures Fold(f, r0, DIGITS) == r9
  {
    FoldOne(f, r8, 0x39, [], r9, r9);
    FoldOne(f, r7, 0x38, [0x39], r8, r9);
    FoldOne(f, r6, 0x37, [0x38, 0x39], r7, r9);
    FoldOne(f, r5, 0x36, [0x37, 0x38, 0x39], r6, r9);
    FoldOne(f, r4, 0x35, [0x36, 0x37, 0x38, 0x39], r5, r9);
    FoldOne(f, r3, 0x34, [0x35, 0x36, 0x37, 0x38, 0x39], r4, r9);
    FoldOne(f, r2, 0x33, [0x34, 0x35, 0x36, 0x37, 0x38, 0x39], r3, r9);
    FoldOne(f, r1, 0x32, [0x33, 0x34, 0x35, 0x36, 0x37, 0x38, 0x39], r2, r9);
    FoldOne(f, r0, 0x31, [0x32, 0x33, 0x34, 0x35, 0x36, 0x37, 0x38, 0x39], r1, r9);
  }

  lemma {:induction false} Crc32Digits()
    ensures Reflected(0xEDB8_8320, 0xFFFF_FFFF, DIGITS) == 0x340B_C6D9
  {
    ByteDown(0xEDB8_8320, 0xFFFF_FFFF, 0x31, 0xFFFF_FFCE, 0x7C23_1048);
    ByteDown(0xEDB8_8320, 0x7C23_1048, 0x32, 0x7C23_107A, 0xB0AC_BB32);
    ByteDown(0xEDB8_8320, 0xB0AC_BB32, 0x33, 0xB0AC_BB01, 0x77B7_9C2D);
    ByteDown(0xEDB8_8320, 0x77B7_9C2D, 0x34, 0x77B7_9C19, 0x641C_1F5C);
    ByteDown(0xEDB8_8320, 0x641C_1F5C, 0x35, 0x641C_1F69, 0x340A_C5E3);
    ByteDown(0xEDB8_8320, 0x340A_C5E3, 0x36, 0x340A_C5D5, 0xF68D_2C9E);
    ByteDown(0xEDB8_8320, 0xF68D_2C9E, 0x37, 0xF68D_2CA9, 0xAFFC_9660);
    ByteDown(0xEDB8_8320, 0xAFFC_9660, 0x38, 0xAFFC_9658, 0x651F_2550);
    ByteDown(0xEDB8_8320, 0x651F_2550, 0x39, 0x651F_2569, 0x340B_C6D9);
    FoldDigits(StepDown(0xEDB8_8320),
      0xFFFF_FFFF, 0x7C23_1048, 0xB0AC_BB32, 0x77B7_9C2D, 0x641C_1F5C,
      0x340A_C5E3, 0xF68D_2C9E, 0xAFFC_9660, 0x651F_2550, 0x340B_C6D9);
    ReflectedIsFold(0xEDB8_8320, 0xFFFF_FFFF, DIGITS);
  }

  lemma {:induction false} CksumDigits()
    ensures Forward(0x04C1_1DB7, 0x0000_0000, DIGITS) == 0x89A1_897F
  {
    ByteUp(0x04C1_1DB7, 0x0000_0000, 0x31, 0x3100_0000, 0xD0F3_7027);
    ByteUp(0x04C1_1DB7, 0xD0F3_7027, 0x32, 0xE2F3_7027, 0x3F5B_3A17);
    ByteUp(0x04C1_1DB7, 0x3F5B_3A17, 0x33, 0x0C5B_3A17, 0x6E36_8C64);
    ByteUp(0x04C1_1DB7, 0x6E36_8C64, 0x34, 0x5A36_8C64, 0x6191_19D1);
    ByteUp(0x04C1_1DB7, 0x6191_19D1, 0x35, 0x5491_19D1, 0xFA8A_0CDB);
    ByteUp(0x04C1_1DB7, 0xFA8A_0CDB, 0x36, 0xCC8A_0CDB, 0xE28A_D0FD);
    ByteUp(0x04C1_1DB7, 0xE28A_D0FD, 0x37, 0xD58A_D0FD, 0x8C8E_DD82);
    ByteUp(0x04C1_1DB7, 0x8C8E_DD82, 0x38, 0xB48E_DD82, 0x20E7_79A2);
    ByteUp(0x04C1_1DB7, 0x20E7_79A2, 0x39, 0x19E7_79A2, 0x89A1_897F);
    FoldDigits(StepUp(0x04C1_1DB7),
      0x0000_0000, 0xD0F3_7027, 0x3F5B_3A17, 0x6E36_8C64, 0x6191_19D1,
      0xFA8A_0CDB, 0xE28A_D0FD, 0x8C8E_DD82, 0x20E7_79A2, 0x89A1_897F);
    ForwardIsFold(0x04C1_1DB7, 0x0000_0000, DIGITS);
  }

  lemma {:induction false} CcittDigits()
    ensures Forward(0x1021_0000, 0xFFFF_0000, DIGITS) == 0x29B1_0000
  {
    ByteUp(0x1021_0000, 0xFFFF_0000, 0x31, 0xCEFF_0000, 0xC782_0000);
    ByteUp(0x1021_0000, 0xC782_0000, 0x32, 0xF582_0000, 0x3DBA_0000);
    ByteUp(0x1021_0000, 0x3DBA_0000, 0x33, 0x0EBA_0000, 0x5BCE_0000);
    ByteUp(0x1021_0000, 0x5BCE_0000, 0x34, 0x6FCE_0000, 0x5349_0000);
    ByteUp(0x1021_0000, 0x5349_0000, 0x35, 0x6649_0000, 0x4560_0000);
    ByteUp(0x1021_0000, 0x4560_0000, 0x36, 0x7360_0000, 0x2EF4_0000);
    ByteUp(0x1021_0000, 0x2EF4_0000, 0x37, 0x19F4_0000, 0x7718_0000);
    ByteUp(0x1021_0000, 0x7718_0000, 0x38, 0x4F18_0000, 0xA12B_0000);
    ByteUp(0x1021_0000, 0xA12B_0000, 0x39, 0x982B_0000, 0x29B1_0000);
    FoldDigits(StepUp(0x1021_0000),
      0xFFFF_0000, 0xC782_0000, 0x3DBA_0000, 0x5BCE_0000, 0x5349_0000,
      0x4560_0000, 0x2EF4_0000, 0x7718_0000, 0xA12B_0000, 0x29B1_0000);
    ForwardIsFold(0x1021_0000, 0xFFFF_0000, DIGITS);
  }

  lemma {:induction false} XmodemDigits()
    ensures Forward(0x1021_0000, 0x0000_0000, DIGITS) == 0x31C3_0000
  {
    ByteUp(0x1021_0000, 0x0000_0000, 0x31, 0x3100_0000, 0x2672_0000);
    ByteUp(0x1021_0000, 0x2672_0000, 0x32, 0x1472_0000, 0x20B5_0000);
    ByteUp(0x1021_0000, 0x20B5_0000, 0x33, 0x13B5_0000, 0x9752_0000);
    ByteUp(0x1021_0000, 0x9752_0000, 0x34, 0xA352_0000, 0xD789_0000);
    ByteUp(0x1021_0000, 0xD789_0000, 0x35, 0xE289_0000, 0x546C_0000);
    ByteUp(0x1021_0000, 0x546C_0000, 0x36, 0x626C_0000, 0x20E4_0000);
    ByteUp(0x1021_0000, 0x20E4_0000, 0x37, 0x17E4_0000, 0x86D6_0000);
    ByteUp(0x1021_0000, 0x86D6_0000, 0x38, 0xBED6_0000, 0x9015_0000);
    ByteUp(0x1021_0000, 0x9015_0000, 0x39, 0xA915_0000, 0x31C3_0000);
    FoldDigits(StepUp(0x1021_0000),
      0x0000_0000, 0x2672_0000, 0x20B5_0000, 0x9752_0000, 0xD789_0000,
      0x546C_0000, 0x20E4_0000, 0x86D6_0000, 0x9015_0000, 0x31C3_0000);
    ForwardIsFold(0x1021_0000, 0x0000_0000, DIGITS);
  }

  lemma {:induction false} KermitDigits()
    ensures Reflected(0x0000_8408, 0x0000_0000, DIGITS) == 0x0000_2189
  {
    ByteDown(0x0000_8408, 0x0000_0000, 0x31, 0x0000_0031, 0x0000_200A);
    ByteDown(0x0000_8408, 0x0000_200A, 0x32, 0x0000_2038, 0x0000_BDEB);
    ByteDown(0x0000_8408, 0x0000_BDEB, 0x33, 0x0000_BDD8, 0x0000_5A78);
    ByteDown(0x0000_8408, 0x0000_5A78, 0x34, 0x0000_5A4C, 0x0000_8832);
    ByteDown(0x0000_8408, 0x0000_8832, 0x35, 0x0000_8807, 0x0000_7437);
    ByteDown(0x0000_8408, 0x0000_7437, 0x36, 0x0000_7401, 0x0000_11FD);
    ByteDown(0x0000_8408, 0x0000_11FD, 0x37, 0x0000_11CA, 0x0000_6947);
    ByteDown(0x0000_8408, 0x0000_6947, 0x38, 0x0000_697F, 0x0000_8B19);
    ByteDown(0x0000_8408, 0x0000_8B19, 0x39, 0x0000_8B20, 0x0000_2189);
    FoldDigits(StepDown(0x0000_8408),
      0x0000_0000, 0x0000_200A, 0x0000_BDEB, 0x0000_5A78, 0x0000_8832,
      0x0000_7437, 0x0000_11FD, 0x0000_6947, 0x0000_8B19, 0x0000_2189);
    ReflectedIsFold(0x0000_8408, 0x0000_0000, DIGITS);
  }

  lemma {:induction false} X25Digits()
    ensures Reflected(0x0000_8408, 0x0000_FFFF, DIGITS) == 0x0000_6F91
  {
    ByteDown(0x0000_8408, 0x0000_FFFF, 0x31, 0x0000_FFCE, 0x0000_2F8D);
    ByteDown(0x0000_8408, 0x0000_2F8D, 0x32, 0x0000_2FBF, 0x0000_4D53);
    ByteDown(0x0000_8408, 0x0000_4D53, 0x33, 0x0000_4D60, 0x0000_634B);
    ByteDown(0x0000_8408, 0x0000_634B, 0x34, 0x0000_637F, 0x0000_8B13);
    ByteDown(0x0000_8408, 0x0000_8B13, 0x35, 0x0000_8B26, 0x0000_44BF);
    ByteDown(0x0000_8408, 0x0000_44BF, 0x36, 0x0000_4489, 0x0000_198D);
    ByteDown(0x0000_8408, 0x0000_198D, 0x37, 0x0000_19BA, 0x0000_1AC8);
    ByteDown(0x0000_8408, 0x0000_1AC8, 0x38, 0x0000_1AF0, 0x0000_F795);
    ByteDown(0x0000_8408, 0x0000_F795, 0x39, 0x0000_F7AC, 0x0000_6F91);
    FoldDigits(StepDown(0x0000_8408),
      0x0000_FFFF, 0x0000_2F8D, 0x0000_4D53, 0x0000_634B, 0x0000_8B13,
      0x0000_44BF, 0x0000_198D, 0x0000_1AC8, 0x0000_F795, 0x0000_6F91);
    ReflectedIsFold(0x0000_8408, 0x0000_FFFF, DIGITS);
  }

  lemma {:induction false} ModbusDigits()
    ensures Reflected(0x0000_A001, 0x0000_FFFF, DIGITS) == 0x0000_4B37
  {
    ByteDown(0x0000_A001, 0x0000_FFFF, 0x31, 0x0000_FFCE, 0x0000_947E);
    ByteDown(0x0000_A001, 0x0000_947E, 0x32, 0x0000_944C, 0x0000_F595);
    ByteDown(0x0000_A001, 0x0000_F595, 0x33, 0x0000_F5A6, 0x0000_7A75);
    ByteDown(0x0000_A001, 0x0000_7A75, 0x34, 0x0000_7A41, 0x0000_30BA);
    ByteDown(0x0000_A001, 0x0000_30BA, 0x35, 0x0000_308F, 0x0000_A471);
    ByteDown(0x0000_A001, 0x0000_A471, 0x36, 0x0000_A447, 0x0000_32E4);
    ByteDown(0x0000_A001, 0x0000_32E4, 0x37, 0x0000_32D3, 0x0000_9D73);
    ByteDown(0x0000_A001, 0x0000_9D73, 0x38, 0x0000_9D4B, 0x0000_37DD);
    ByteDown(0x0000_A001, 0x0000_37DD, 0x39, 0x0000_37E4, 0x0000_4B37);
    FoldDigits(StepDown(0x0000_A001),
      0x0000_FFFF, 0x0000_947E, 0x0000_F595, 0x0000_7A75, 0x0000_30BA,
      0x0000_A471, 0x0000_32E4, 0x0000_9D73, 0x0000_37DD, 0x0000_4B37);
    ReflectedIsFold(0x0000_A001, 0x0000_FFFF, DIGITS);
  }

  // ----- What the checks return for them -----

  /** CRC-32. */
  lemma {:induction false} Crc32OfDigits()
    ensures Crc32Of(DIGITS) == 0xCBF4_3926
  {
    Crc32Digits();
  }

  /** CKSUM without the length. */
  lemma {:induction false} CksumOfDigits()
    ensures CksumOf(DIGITS) == 0x765E_7680
  {
    CksumDigits();
  }

  lemma {:induction false} LowIsKnown(r: bv16, v: bv16)
    requires InLow(r) == InLow(v)
    ensures r == v
  {}

  lemma {:induction false} HighIsKnown(r: bv16, v: bv16)
    requires InHigh(r) == InHigh(v)
    ensures r == v
  {}

  /** CCITT. */
  lemma {:induction false} CcittOfDigits()
    ensures Forward16(CCITT_POLY, 0xffff, DIGITS) == 0x29B1
  {
    CcittDigits();
    MessageInHigh(CCITT_POLY, 0xffff, DIGITS);
    HighIsKnown(Forward16(CCITT_POLY, 0xffff, DIGITS), 0x29B1);
  }

  /** XMODEM. */
  lemma {:induction false} XmodemOfDigits()
    ensures Forward16(CCITT_POLY, 0, DIGITS) == 0x31C3
  {
    XmodemDigits();
    MessageInHigh(CCITT_POLY, 0, DIGITS);
    HighIsKnown(Forward16(CCITT_POLY, 0, DIGITS), 0x31C3);
  }

  /** KERMIT; MCRF4XX as it is coded returns the same. */
  lemma {:induction false} KermitOfDigits()
    ensures Reflected16(CCITT_POLY_REFLECTED, 0, DIGITS) == 0x2189
  {
    KermitDigits();
    MessageInLow(CCITT_POLY_REFLECTED, 0, DIGITS);
    LowIsKnown(Reflected16(CCITT_POLY_REFLECTED, 0, DIGITS), 0x2189);
  }

  /** MCRF4XX as it is documented; its complement is the 906E of X25. */
  lemma {:induction false} X25OfDigits()
    ensures Reflected16(CCITT_POLY_REFLECTED, 0xffff, DIGITS) == 0x6F91
    ensures !Reflected16(CCITT_POLY_REFLECTED, 0xffff, DIGITS) == 0x906E
  {
    X25Digits();
    MessageInLow(CCITT_POLY_REFLECTED, 0xffff, DIGITS);
    LowIsKnown(Reflected16(CCITT_POLY_REFLECTED, 0xffff, DIGITS), 0x6F91);
  }

  /** MODBUS. */
  lemma {:induction false} ModbusOfDigits()
    ensures Reflected16(MODBUS_POLY_REFLECTED, 0xffff, DIGITS) == 0x4B37
  {
    ModbusDigits();
    MessageInLow(MODBUS_POLY_REFLECTED, 0xffff, DIGITS);
    LowIsKnown(Reflected16(MODBUS_POLY_REFLECTED, 0xffff, DIGITS), 0x4B37);
  }

  // ----- The tables -----

  /** The entries of a table at the powers of two. */
  predicate HasBasis(t: bv32 -> bv32, b0: bv32, b1: bv32, b2: bv32, b3: bv32, b4: bv32, b5: bv32, b6: bv32, b7: bv32) {
    && t(0x01) == b0 && t(0x02) == b1 && t(0x04) == b2 && t(0x08) == b3
    && t(0x10) == b4 && t(0x20) == b5 && t(0x40) == b6 && t(0x80) == b7
  }

  lemma {:induction false} EntryDown(p: bv32, i: bv32, entry: bv32)
    requires entry == Down(p, Down(p, Down(p, Down(p, Down(p, Down(p, Down(p, Down(p, i))))))))
    ensures ReflectedTable(p)(i) == entry
  {
    EightDown(p, i, entry);
  }

  lemma {:induction false} EntryUp(p: bv32, i: bv32, x: bv32, next: bv32, entry: bv32)
    requires Rev32(i) == x && Rev32(next) == entry
    requires next == Up(p, Up(p, Up(p, Up(p, Up(p, Up(p, Up(p, Up(p, x))))))))
    ensures SwappedTable(p)(i) == entry
  {
    EightUp(p, x, next);
  }

  /** The table of CRC-32. */
  lemma {:induction false} Crc32Table()
    ensures HasBasis(ReflectedTable(CRC32_POLY),
                     0x7707_3096, 0xEE0E_612C, 0x076D_C419, 0x0EDB_8832,
                     0x1DB7_1064, 0x3B6E_20C8, 0x76DC_4190, 0xEDB8_8320)
  {
    EntryDown(0xEDB8_8320, 0x01, 0x7707_3096);
    EntryDown(0xEDB8_8320, 0x02, 0xEE0E_612C);
    EntryDown(0xEDB8_8320, 0x04, 0x076D_C419);
    EntryDown(0xEDB8_8320, 0x08, 0x0EDB_8832);
    EntryDown(0xEDB8_8320, 0x10, 0x1DB7_1064);
    EntryDown(0xEDB8_8320, 0x20, 0x3B6E_20C8);
    EntryDown(0xEDB8_8320, 0x40, 0x76DC_4190);
    EntryDown(0xEDB8_8320, 0x80, 0xEDB8_8320);
  }

  /** The table of CKSUM, byte-swapped. */
  lemma {:induction false} CksumTable()
    ensures HasBasis(SwappedTable(CKSUM_POLY),
                     0xB71D_C104, 0x6E3B_8209, 0xDC76_0413, 0xB8ED_0826,
                     0x70DB_114C, 0xE0B6_2398, 0x7770_8634, 0xEEE0_0C69)
  {
    EntryUp(0x04C1_1DB7, 0x01, 0x0100_0000, 0x04C1_1DB7, 0xB71D_C104);
    EntryUp(0x04C1_1DB7, 0x02, 0x0200_0000, 0x0982_3B6E, 0x6E3B_8209);
    EntryUp(0x04C1_1DB7, 0x04, 0x0400_0000, 0x1304_76DC, 0xDC76_0413);
    EntryUp(0x04C1_1DB7, 0x08, 0x0800_0000, 0x2608_EDB8, 0xB8ED_0826);
    EntryUp(0x04C1_1DB7, 0x10, 0x1000_0000, 0x4C11_DB70, 0x70DB_114C);
    EntryUp(0x04C1_1DB7, 0x20, 0x2000_0000, 0x9823_B6E0, 0xE0B6_2398);
    EntryUp(0x04C1_1DB7, 0x40, 0x4000_0000, 0x3486_7077, 0x7770_8634);
    EntryUp(0x04C1_1DB7, 0x80, 0x8000_0000, 0x690C_E0EE, 0xEEE0_0C69);
  }

  /** The table of CCITT and XMODEM, byte-swapped. */
  lemma {:induction false} CcittTable()
    ensures HasBasis(SwappedTable(InHigh(CCITT_POLY)),
                     0x0000_2110, 0x0000_4220, 0x0000_8440, 0x0000_0881,
                     0x0000_3112, 0x0000_6224, 0x0000_C448, 0x0000_8891)
  {
    assert InHigh(CCITT_POLY) == 0x1021_0000;
    EntryUp(0x1021_0000, 0x01, 0x0100_0000, 0x1021_0000, 0x0000_2110);
    EntryUp(0x1021_0000, 0x02, 0x0200_0000, 0x2042_0000, 0x0000_4220);
    EntryUp(0x1021_0000, 0x04, 0x0400_0000, 0x4084_0000, 0x0000_8440);
    EntryUp(0x1021_0000, 0x08, 0x0800_0000, 0x8108_0000, 0x0000_0881);
    EntryUp(0x1021_0000, 0x10, 0x1000_0000, 0x1231_0000, 0x0000_3112);
    EntryUp(0x1021_0000, 0x20, 0x2000_0000, 0x2462_0000, 0x0000_6224);
    EntryUp(0x1021_0000, 0x40, 0x4000_0000, 0x48C4_0000, 0x0000_C448);
    EntryUp(0x1021_0000, 0x80, 0x8000_0000, 0x9188_0000, 0x0000_8891);
  }

  /** The table of KERMIT, X25 and MCRF4XX. */
  lemma {:induction false} KermitTable()
    ensures HasBasis(ReflectedTable(InLow(CCITT_POLY_REFLECTED)),
                     0x0000_1189, 0x0000_2312, 0x0000_4624, 0x0000_8C48,
                     0x0000_1081, 0x0000_2102, 0x0000_4204, 0x0000_8408)
  {
    assert InLow(CCITT_POLY_REFLECTED) == 0x0000_8408;
    EntryDown(0x0000_8408, 0x01, 0x0000_1189);
    EntryDown(0x0000_8408, 0x02, 0x0000_2312);
    EntryDown(0x0000_8408, 0x04, 0x0000_4624);
    EntryDown(0x0000_8408, 0x08, 0x0000_8C48);
    EntryDown(0x0000_8408, 0x10, 0x0000_1081);
    EntryDown(0x0000_8408, 0x20, 0x0000_2102);
    EntryDown(0x0000_8408, 0x40, 0x0000_4204);
    EntryDown(0x0000_8408, 0x80, 0x0000_8408);
  }

  /** The table of MODBUS. */
  lemma {:induction false} ModbusTable()
    ensures HasBasis(ReflectedTable(InLow(MODBUS_POLY_REFLECTED)),
                     0x0000_C0C1, 0x0000_C181, 0x0000_C301, 0x0000_C601,
                     0x0000_CC01, 0x0000_D801, 0x0000_F001, 0x0000_A001)
  {
    assert InLow(MODBUS_POLY_REFLECTED) == 0x0000_A001;
    EntryDown(0x0000_A001, 0x01, 0x0000_C0C1);
    EntryDown(0x0000_A001, 0x02, 0x0000_C181);
    EntryDown(0x0000_A001, 0x04, 0x0000_C301);
    EntryDown(0x0000_A001, 0x08, 0x0000_C601);
    EntryDown(0x0000_A001, 0x10, 0x0000_CC01);
    EntryDown(0x0000_A001, 0x20, 0x0000_D801);
    EntryDown(0x0000_A001, 0x40, 0x0000_F001);
    EntryDown(0x0000_A001, 0x80, 0x0000_A001);
  }

  // ----- A linear table is fixed by them -----

  predicate Agree(t: bv32 -> bv32, u: bv32 -> bv32, i: bv32) {
    t(i) == u(i)
  }

  lemma {:induction false} ZeroAgrees(t: bv32 -> bv32, u: bv32 -> bv32)
    requires Linear(OPS, t) && Linear(OPS, u)
    ensures Agree(t, u, 0)
  {
    OpsAreLawful();
    LinearKeepsZero(OPS, t);
    LinearKeepsZero(OPS, u);
  }

  lemma {:induction false} SumAgrees(t: bv32 -> bv32, u: bv32 -> bv32, a: bv32, b: bv32, ab: bv32)
    requires Linear(OPS, t) && Linear(OPS, u) && Agree(t, u, a) && Agree(t, u, b) && ab == OPS.xor(a, b)
    ensures Agree(t, u, ab)
  {
    assert LinearAt(OPS, t, a, b);
    assert LinearAt(OPS, u, a, b);
  }

  lemma {:induction false} BitApart(i: bv32, low: bv32, bit: bv32)
    requires low & bit == 0
    ensures i & (low | bit) == OPS.xor(i & low, i & bit)
  {}

  /** One more bit of an index. */
  lemma {:induction false} BitAgrees(t: bv32 -> bv32, u: bv32 -> bv32, i: bv32, low: bv32, bit: bv32, all: bv32)
    requires Linear(OPS, t) && Linear(OPS, u)
    requires Agree(t, u, i & low) && Agree(t, u, bit)
    requires i & bit == bit || i & bit == 0
    requires low & bit == 0 && low | bit == all
    ensures Agree(t, u, i & all)
  {
    ZeroAgrees(t, u);
    BitApart(i, low, bit);
    SumAgrees(t, u, i & low, i & bit, i & all);
  }

  lemma {:induction false} BitOrNot(i: bv32)
    ensures i & 0x01 == 0x01 || i & 0x01 == 0
    ensures i & 0x02 == 0x02 || i & 0x02 == 0
    ensures i & 0x04 == 0x04 || i & 0x04 == 0
    ensures i & 0x08 == 0x08 || i & 0x08 == 0
    ensures i & 0x10 == 0x10 || i & 0x10 == 0
    ensures i & 0x20 == 0x20 || i & 0x20 == 0
    ensures i & 0x40 == 0x40 || i & 0x40 == 0
    ensures i & 0x80 == 0x80 || i & 0x80 == 0
  {}

  lemma {:induction false} LowBitsAgree(t: bv32 -> bv32, u: bv32 -> bv32, i: bv32)
    requires Linear(OPS, t) && Linear(OPS, u)
    requires Agree(t, u, 0x01) && Agree(t, u, 0x02) && Agree(t, u, 0x04) && Agree(t, u, 0x08)
    ensures Agree(t, u, i & 0x0F)
  {
    BitOrNot(i);
    ZeroAgrees(t, u);
    BitAgrees(t, u, i, 0x00, 0x01, 0x01);
    BitAgrees(t, u, i, 0x01, 0x02, 0x03);
    BitAgrees(t, u, i, 0x03, 0x04, 0x07);
    BitAgrees(t, u, i, 0x07, 0x08, 0x0F);
  }

  /** Two linear tables with the same entries at the powers of two are the same on every byte. */
  lemma {:induction false} BasisFixesTable(t: bv32 -> bv32, u: bv32 -> bv32, i: bv32)
    requires Linear(OPS, t) && Linear(OPS, u) && i & 0xff == i
    requires HasBasis(u, t(0x01), t(0x02), t(0x04), t(0x08), t(0x10), t(0x20), t(0x40), t(0x80))
    ensures t(i) == u(i)
  {
    BitOrNot(i);
    LowBitsAgree(t, u, i);
    BitAgrees(t, u, i, 0x0F, 0x10, 0x1F);
    BitAgrees(t, u, i, 0x1F, 0x20, 0x3F);
    BitAgrees(t, u, i, 0x3F, 0x40, 0x7F);
    BitAgrees(t, u, i, 0x7F, 0x80, 0xFF);
  }
}
