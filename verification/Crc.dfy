/** Bit-by-bit cyclic redundancy checks, the tables that speed them up, and the proof that a
    table-driven register is the bit-by-bit one. */
module Crc {
  import opened CrcTheory

  // ----- Words of 32 bits -----

  function Xor(a: bv32, b: bv32): bv32 { a ^ b }

  function HighBytes(r: bv32): bv32 { r >> 8 }

  function LowByte(r: bv32): bv32 { r & 0xff }

  const OPS: Ops<bv32> := Ops(Xor, 0, HighBytes, LowByte)

  lemma {:induction false} XorAssociates(a: bv32, b: bv32, c: bv32)
    ensures AssociatesAt(OPS, a, b, c)
  {
    NamedXorsAssociate(a, b, c, OPS.xor(a, b), OPS.xor(b, c), OPS.xor(OPS.xor(a, b), c), OPS.xor(a, OPS.xor(b, c)));
  }

  // Naming the intermediate words keeps the bit-level reasoning small.
  lemma {:induction false} NamedXorsAssociate(a: bv32, b: bv32, c: bv32, ab: bv32, bc: bv32, left: bv32, right: bv32)
    requires ab == OPS.xor(a, b) && bc == OPS.xor(b, c) && left == OPS.xor(ab, c) && right == OPS.xor(a, bc)
    ensures left == right
  {
    XorIsXor(a, b, ab);
    XorIsXor(b, c, bc);
    XorIsXor(ab, c, left);
    XorIsXor(a, bc, right);
    BitsAssociate(a, b, c, ab, bc, left, right);
  }

  lemma {:induction false} XorIsXor(a: bv32, b: bv32, ab: bv32)
    requires ab == OPS.xor(a, b)
    ensures ab == a ^ b
  {}

  lemma {:induction false} BitsAssociate(a: bv32, b: bv32, c: bv32, ab: bv32, bc: bv32, left: bv32, right: bv32)
    requires ab == a ^ b && bc == b ^ c && left == ab ^ c && right == a ^ bc
    ensures left == right
  {}

  lemma {:induction false} XorCommutes(a: bv32, b: bv32)
    ensures CommutesAt(OPS, a, b)
  {}

  lemma {:induction false} XorCancels(a: bv32)
    ensures CancelsAt(OPS, a)
  {}

  lemma {:induction false} HighIsLinear(a: bv32, b: bv32)
    ensures LinearAt(OPS, OPS.high, a, b)
  {}

  lemma {:induction false} LowIsLinear(a: bv32, b: bv32)
    ensures LinearAt(OPS, OPS.low, a, b)
  {}

  lemma {:induction false} OpsAreLawful()
    ensures Lawful(OPS)
  {
    forall a, b, c ensures AssociatesAt(OPS, a, b, c) { XorAssociates(a, b, c); }
    forall a, b ensures CommutesAt(OPS, a, b) { XorCommutes(a, b); }
    forall a ensures CancelsAt(OPS, a) { XorCancels(a); }
    forall a, b ensures LinearAt(OPS, OPS.high, a, b) { HighIsLinear(a, b); }
    forall a, b ensures LinearAt(OPS, OPS.low, a, b) { LowIsLinear(a, b); }
  }

  // ----- Shifting a register by one bit -----

  /** The polynomial, when the bit that goes out of a reflected register is set. */
  function LowAdds(p: bv32): bv32 -> bv32 {
    r => if r & 1 == 1 then p else 0
  }

  /** The polynomial, when the bit that goes out at the top is set. */
  function HighAdds(p: bv32): bv32 -> bv32 {
    r => if r & 0x8000_0000 != 0 then p else 0
  }

  function Halve(r: bv32): bv32 { r >> 1 }

  function Double(r: bv32): bv32 { r << 1 }

  /** One shift of a reflected register: (r >> 1), plus the polynomial if the low bit was set. */
  function ReflectedShift(p: bv32): bv32 -> bv32 {
    Sum(OPS, Halve, LowAdds(p))
  }

  /** One shift of a register whose high bit goes out first. */
  function ForwardShift(p: bv32): bv32 -> bv32 {
    Sum(OPS, Double, HighAdds(p))
  }

  lemma {:induction false} HalveIsLinear(a: bv32, b: bv32)
    ensures LinearAt(OPS, Halve, a, b)
  {}

  lemma {:induction false} DoubleIsLinear(a: bv32, b: bv32)
    ensures LinearAt(OPS, Double, a, b)
  {}

  lemma {:induction false} LowAddsIsLinear(p: bv32, a: bv32, b: bv32)
    ensures LinearAt(OPS, LowAdds(p), a, b)
  {
    LowAddsOfXor(p, a, b, OPS.xor(a, b), a & 1 == 1, b & 1 == 1);
  }

  lemma {:induction false} LowAddsOfXor(p: bv32, a: bv32, b: bv32, ab: bv32, i: bool, j: bool)
    requires ab == OPS.xor(a, b) && i == (a & 1 == 1) && j == (b & 1 == 1)
    ensures LowAdds(p)(ab) == OPS.xor(if i then p else 0, if j then p else 0)
  {
    LowBitOfXor(a, b);
    AddedTwice(p, i, j);
  }

  lemma {:induction false} HighAddsIsLinear(p: bv32, a: bv32, b: bv32)
    ensures LinearAt(OPS, HighAdds(p), a, b)
  {
    var i, j := a & 0x8000_0000 != 0, b & 0x8000_0000 != 0;
    HighAddsOne(p, a, i);
    HighAddsOne(p, b, j);
    HighAddsOfXor(p, a, b, OPS.xor(a, b), i, j);
  }

  lemma {:induction false} HighAddsOne(p: bv32, a: bv32, i: bool)
    requires i == (a & 0x8000_0000 != 0)
    ensures HighAdds(p)(a) == if i then p else 0
  {}

  lemma {:induction false} HighAddsOfXor(p: bv32, a: bv32, b: bv32, ab: bv32, i: bool, j: bool)
    requires ab == OPS.xor(a, b) && i == (a & 0x8000_0000 != 0) && j == (b & 0x8000_0000 != 0)
    ensures HighAdds(p)(ab) == OPS.xor(if i then p else 0, if j then p else 0)
  {
    HighBitOfXor(a, b);
    AddedTwice(p, i, j);
  }

  lemma {:induction false} AddedTwice(p: bv32, i: bool, j: bool)
    ensures OPS.xor(if i then p else 0, if j then p else 0) == if i != j then p else 0
  {
    assert CancelsAt(OPS, p);
    XorCommutes(p, 0);
  }

  lemma {:induction false} LowBitOfXor(a: bv32, b: bv32)
    ensures (OPS.xor(a, b) & 1 == 1) == ((a & 1 == 1) != (b & 1 == 1))
  {}

  lemma {:induction false} HighBitOfXor(a: bv32, b: bv32)
    ensures (OPS.xor(a, b) & 0x8000_0000 != 0) == ((a & 0x8000_0000 != 0) != (b & 0x8000_0000 != 0))
  {}

  lemma {:induction false} ReflectedShiftIsLinear(p: bv32)
    ensures Linear(OPS, ReflectedShift(p))
  {
    OpsAreLawful();
    forall a, b ensures LinearAt(OPS, Halve, a, b) { HalveIsLinear(a, b); }
    forall a, b ensures LinearAt(OPS, LowAdds(p), a, b) { LowAddsIsLinear(p, a, b); }
    SumIsLinear(OPS, Halve, LowAdds(p));
  }

  lemma {:induction false} ForwardShiftIsLinear(p: bv32)
    ensures Linear(OPS, ForwardShift(p))
  {
    OpsAreLawful();
    forall a, b ensures LinearAt(OPS, Double, a, b) { DoubleIsLinear(a, b); }
    forall a, b ensures LinearAt(OPS, HighAdds(p), a, b) { HighAddsIsLinear(p, a, b); }
    SumIsLinear(OPS, Double, HighAdds(p));
  }

  // ----- Bit by bit -----

  /** The n lowest bits of m enter a reflected register one at a time, lowest first. */
  function ReflectedBits(p: bv32, r: bv32, m: bv32, n: nat): bv32
    decreases n
  {
    if n == 0 then r else ReflectedBits(p, ReflectedShift(p)(r ^ (m & 1)), m >> 1, n - 1)
  }

  /** The n highest bits of m enter at the top, highest first. */
  function ForwardBits(p: bv32, r: bv32, m: bv32, n: nat): bv32
    decreases n
  {
    if n == 0 then r else ForwardBits(p, ForwardShift(p)(r ^ (m & 0x8000_0000)), m << 1, n - 1)
  }

  /** A message, bit by bit, through a reflected register. */
  function Reflected(p: bv32, r: bv32, data: seq<bv8>): bv32
    decreases data
  {
    if |data| == 0 then r else Reflected(p, ReflectedBits(p, r, data[0] as bv32, 8), data[1..])
  }

  /** A message, bit by bit, through a register whose high bit goes out first. */
  function Forward(p: bv32, r: bv32, data: seq<bv8>): bv32
    decreases data
  {
    if |data| == 0 then r else Forward(p, ForwardBits(p, r, (data[0] as bv32) << 24, 8), data[1..])
  }

  // ----- By table -----

  function Rev32(value: bv32): bv32 {
    var value := (value >> 16) | ((value & 0xffff) << 16);
    ((value >> 8) & 0xff00ff) | ((value & 0xff00ff) << 8)
  }

  /** The byte table of a reflected register: eight shifts. */
  function ReflectedTable(p: bv32): bv32 -> bv32 {
    Repeated(ReflectedShift(p), 8)
  }

  /** The byte table of a register that is kept byte-swapped. */
  function SwappedTable(p: bv32): bv32 -> bv32 {
    Conjugate(Rev32, Repeated(ForwardShift(p), 8))
  }

  /** The bytes of a message as words. */
  function Widen(data: seq<bv8>): (words: seq<bv32>)
    ensures |words| == |data|
    ensures forall i | 0 <= i < |data| :: words[i] == data[i] as bv32
    decreases data
  {
    if |data| == 0 then [] else [data[0] as bv32] + Widen(data[1..])
  }

  lemma {:induction false} Rev32IsLinear(a: bv32, b: bv32)
    ensures LinearAt(OPS, Rev32, a, b)
  {}

  lemma {:induction false} ReflectedTableIsLinear(p: bv32)
    ensures Linear(OPS, ReflectedTable(p))
  {
    ReflectedShiftIsLinear(p);
    RepeatedIsLinear(OPS, ReflectedShift(p), 8);
  }

  lemma {:induction false} Rev32IsLinearEverywhere()
    ensures Linear(OPS, Rev32)
  {
    forall a, b ensures LinearAt(OPS, Rev32, a, b) { Rev32IsLinear(a, b); }
  }

  lemma {:induction false} RepeatedForwardIsLinear(p: bv32)
    ensures Linear(OPS, Repeated(ForwardShift(p), 8))
  {
    ForwardShiftIsLinear(p);
    RepeatedIsLinear(OPS, ForwardShift(p), 8);
  }

  lemma {:induction false} SwappedTableIsLinear(p: bv32)
    ensures Linear(OPS, SwappedTable(p))
  {
    Rev32IsLinearEverywhere();
    RepeatedForwardIsLinear(p);
    ConjugateIsLinear(OPS, Rev32, Repeated(ForwardShift(p), 8));
  }

  // ----- Eight shifts are a table step -----

  lemma {:induction false} HalveEven(p: bv32, x: bv32)
    requires x & 1 == 0
    ensures ReflectedShift(p)(x) == x >> 1
  {
    assert ReflectedShift(p)(x) == OPS.xor(Halve(x), LowAdds(p)(x));
    assert CancelsAt(OPS, Halve(x));
  }

  lemma {:induction false} DoubleSmall(p: bv32, x: bv32)
    requires x & 0x8000_0000 == 0
    ensures ForwardShift(p)(x) == x << 1
  {
    assert ForwardShift(p)(x) == OPS.xor(Double(x), HighAdds(p)(x));
    assert CancelsAt(OPS, Double(x));
  }

  /** A register whose low bits are clear only moves down. */
  lemma {:induction false} HalveRepeatedly(p: bv32, n: bv32, k: nat, x: bv32)
    requires n <= 8 && n as nat == k
    requires x & ((1 << n) - 1) == 0
    ensures Times(ReflectedShift(p), k, x) == x >> n
  {
    if n > 0 {
      HalveEven(p, x);
      HalveRepeatedly(p, n - 1, k - 1, x >> 1);
    }
  }

  /** A register whose high bits are clear only moves up. */
  lemma {:induction false} DoubleRepeatedly(p: bv32, n: bv32, k: nat, x: bv32)
    requires n <= 8 && n as nat == k
    requires x >> (32 - n) == 0
    ensures Times(ForwardShift(p), k, x) == x << n
  {
    if n > 0 {
      DoubleSmall(p, x);
      DoubleRepeatedly(p, n - 1, k - 1, x << 1);
    }
  }

  lemma {:induction false} SplitLow(x: bv32)
    ensures x == OPS.xor(x & 0xff, x & 0xffff_ff00)
    ensures (x & 0xffff_ff00) >> 8 == x >> 8
  {}

  lemma {:induction false} SplitHigh(x: bv32)
    ensures x == OPS.xor(x & 0xff00_0000, x & 0xff_ffff)
    ensures (x & 0xff_ffff) << 8 == x << 8
  {}

  /** Eight shifts of a reflected register, whatever it holds, are one table step. */
  lemma {:induction false} EightReflectedShifts(p: bv32, x: bv32)
    ensures Times(ReflectedShift(p), 8, x) == Next(OPS, ReflectedTable(p), x)
  {
    SplitReflectedShifts(p, x);
    OpsAreLawful();
    assert CommutesAt(OPS, OPS.high(x), ReflectedTable(p)(OPS.low(x)));
  }

  lemma {:induction false} SplitReflectedShifts(p: bv32, x: bv32)
    ensures Times(ReflectedShift(p), 8, x) == OPS.xor(Times(ReflectedShift(p), 8, OPS.low(x)), OPS.high(x))
  {
    var low, rest := x & 0xff, x & 0xffff_ff00;
    SplitLow(x);
    ReflectedShiftIsLinear(p);
    TimesIsLinear(OPS, ReflectedShift(p), 8, low, rest);
    HalveRepeatedly(p, 8, 8, rest);
  }

  lemma {:induction false} RevTwice(x: bv32)
    ensures Rev32(Rev32(x)) == x
  {}

  /** Byte-swapped, the top byte is the low one and moving up is moving down. */
  lemma {:induction false} RevParts(r: bv32)
    ensures Rev32((r & 0xff_ffff) << 8) == OPS.high(Rev32(r))
    ensures Rev32(OPS.low(Rev32(r))) == r & 0xff00_0000
  {}

  lemma {:induction false} SplitForwardShifts(p: bv32, r: bv32)
    ensures Times(ForwardShift(p), 8, r)
         == OPS.xor(Times(ForwardShift(p), 8, r & 0xff00_0000), (r & 0xff_ffff) << 8)
  {
    SplitHigh(r);
    ForwardShiftIsLinear(p);
    TimesIsLinear(OPS, ForwardShift(p), 8, r & 0xff00_0000, r & 0xff_ffff);
    DoubleRepeatedly(p, 8, 8, r & 0xff_ffff);
  }

  /** Eight shifts of a register, seen byte-swapped, are one table step. */
  lemma {:induction false} EightForwardShifts(p: bv32, r: bv32)
    ensures Rev32(Times(ForwardShift(p), 8, r)) == Next(OPS, SwappedTable(p), Rev32(r))
  {
    var top, rest := Times(ForwardShift(p), 8, r & 0xff00_0000), (r & 0xff_ffff) << 8;
    SplitForwardShifts(p, r);
    Rev32IsLinearEverywhere();
    assert LinearAt(OPS, Rev32, top, rest);
    RevParts(r);
    OpsAreLawful();
    assert CommutesAt(OPS, Rev32(top), Rev32(rest));
  }

  // ----- A byte bit by bit is a byte at once -----

  lemma {:induction false} LowBitApart(m: bv32)
    ensures m == OPS.xor(m & 1, m & 0xffff_fffe)
    ensures (m & 0xffff_fffe) & 1 == 0 && (m & 0xffff_fffe) >> 1 == m >> 1
  {}

  lemma {:induction false} HighBitApart(m: bv32)
    ensures m == OPS.xor(m & 0x8000_0000, m & 0x7fff_ffff)
    ensures (m & 0x7fff_ffff) & 0x8000_0000 == 0 && (m & 0x7fff_ffff) << 1 == m << 1
  {}

  lemma {:induction false} ReflectedBitsAtOnce(p: bv32, r: bv32, m: bv32, n: nat, left: bv32)
    requires n <= 8 && left == n as bv32 && m >> left == 0
    ensures ReflectedBits(p, r, m, n) == Times(ReflectedShift(p), n, OPS.xor(r, m))
    decreases n
  {
    if n == 0 {
      assert CancelsAt(OPS, r);
    } else {
      OneReflectedBit(p, r, m);
      OneBitLess(m, n, left);
      ReflectedBitsAtOnce(p, ReflectedShift(p)(r ^ (m & 1)), m >> 1, n - 1, left - 1);
    }
  }

  lemma {:induction false} OneBitLess(m: bv32, n: nat, left: bv32)
    requires 0 < n <= 8 && left == n as bv32 && m >> left == 0
    ensures 0 < left <= 8 && left - 1 == (n - 1) as bv32 && (m >> 1) >> (left - 1) == 0
  {}

  lemma {:induction false} OneReflectedBit(p: bv32, r: bv32, m: bv32)
    ensures ReflectedShift(p)(OPS.xor(r, m)) == OPS.xor(ReflectedShift(p)(r ^ (m & 1)), m >> 1)
  {
    var first, others := m & 1, m & 0xffff_fffe;
    LowBitApart(m);
    HalveEven(p, others);
    ReflectedShiftIsLinear(p);
    OneBit(ReflectedShift(p), r, m, first, others);
  }

  lemma {:induction false} OneBit(f: bv32 -> bv32, r: bv32, m: bv32, first: bv32, others: bv32)
    requires Linear(OPS, f) && m == OPS.xor(first, others)
    ensures f(OPS.xor(r, m)) == OPS.xor(f(OPS.xor(r, first)), f(others))
  {
    OpsAreLawful();
    assert AssociatesAt(OPS, r, first, others);
    assert LinearAt(OPS, f, OPS.xor(r, first), others);
  }

  lemma {:induction false} OneForwardBit(p: bv32, r: bv32, m: bv32)
    ensures ForwardShift(p)(OPS.xor(r, m)) == OPS.xor(ForwardShift(p)(r ^ (m & 0x8000_0000)), m << 1)
  {
    var first, others := m & 0x8000_0000, m & 0x7fff_ffff;
    HighBitApart(m);
    DoubleSmall(p, others);
    ForwardShiftIsLinear(p);
    OneBit(ForwardShift(p), r, m, first, others);
  }

  lemma {:induction false} ForwardBitsAtOnce(p: bv32, r: bv32, m: bv32, n: nat, left: bv32)
    requires n <= 8 && left == n as bv32 && m << left == 0
    ensures ForwardBits(p, r, m, n) == Times(ForwardShift(p), n, OPS.xor(r, m))
    decreases n
  {
    if n == 0 {
      assert CancelsAt(OPS, r);
    } else {
      OneForwardBit(p, r, m);
      ForwardBitsAtOnce(p, ForwardShift(p)(r ^ (m & 0x8000_0000)), m << 1, n - 1, left - 1);
    }
  }

  // ----- The table-driven register is the bit-by-bit one -----

  lemma {:induction false} ReflectedByte(p: bv32, r: bv32, b: bv8)
    ensures ReflectedBits(p, r, b as bv32, 8) == Next(OPS, ReflectedTable(p), OPS.xor(r, b as bv32))
  {
    ReflectedBitsAtOnce(p, r, b as bv32, 8, 8);
    EightReflectedShifts(p, OPS.xor(r, b as bv32));
  }

  /** For every polynomial, register and message. */
  lemma {:induction false} FeedIsReflected(p: bv32, c: bv32, data: seq<bv8>)
    ensures Feed(OPS, ReflectedTable(p), c, Widen(data)) == Reflected(p, c, data)
    decreases data
  {
    if |data| > 0 {
      ReflectedByte(p, c, data[0]);
      WidenRest(data);
      FeedIsReflected(p, ReflectedBits(p, c, data[0] as bv32, 8), data[1..]);
    }
  }

  lemma {:induction false} WidenRest(data: seq<bv8>)
    requires |data| > 0
    ensures Widen(data)[1..] == Widen(data[1..])
  {}

  lemma {:induction false} RevOfTop(r: bv32, b: bv8)
    ensures Rev32(OPS.xor(r, (b as bv32) << 24)) == OPS.xor(Rev32(r), b as bv32)
  {
    RevOfTopByte(b);
    Rev32IsLinear(r, (b as bv32) << 24);
  }

  lemma {:induction false} RevOfTopByte(b: bv8)
    ensures Rev32((b as bv32) << 24) == b as bv32
  {}

  lemma {:induction false} ForwardByte(p: bv32, r: bv32, b: bv8)
    ensures Rev32(ForwardBits(p, r, (b as bv32) << 24, 8)) == Next(OPS, SwappedTable(p), OPS.xor(Rev32(r), b as bv32))
  {
    var m := (b as bv32) << 24;
    ForwardBitsAtOnce(p, r, m, 8, 8);
    EightForwardShifts(p, OPS.xor(r, m));
    RevOfTop(r, b);
  }

  /** The simulation: a register kept byte-swapped and shifted to the right holds, swapped
      back, what the register that is shifted to the left holds. */
  lemma {:induction false} FeedIsForward(p: bv32, r: bv32, data: seq<bv8>)
    ensures Feed(OPS, SwappedTable(p), Rev32(r), Widen(data)) == Rev32(Forward(p, r, data))
    decreases data
  {
    if |data| > 0 {
      ForwardByte(p, r, data[0]);
      WidenRest(data);
      FeedIsForward(p, ForwardBits(p, r, (data[0] as bv32) << 24, 8), data[1..]);
    }
  }

  // ----- Four bytes at once -----

  /** What four bytes in memory are when read as a little-endian word. */
  function Word(b0: bv8, b1: bv8, b2: bv8, b3: bv8): bv32 {
    (b0 as bv32) | ((b1 as bv32) << 8) | ((b2 as bv32) << 16) | ((b3 as bv32) << 24)
  }

  /** The big-table step: one lookup for each byte of the register, in the slice for its place. */
  function BigStep(t: bv32 -> bv32, c: bv32): bv32 {
    Lookups(t, c & 0xff, (c >> 8) & 0xff, (c >> 16) & 0xff, (c >> 24) & 0xff)
  }

  function Lookups(t: bv32 -> bv32, b0: bv32, b1: bv32, b2: bv32, b3: bv32): bv32 {
    Slice(OPS, t, 3, b0) ^ Slice(OPS, t, 2, b1) ^ Slice(OPS, t, 1, b2) ^ Slice(OPS, t, 0, b3)
  }

  lemma {:induction false} ByteBelow(t: bv32 -> bv32, x: bv32, below: bv32)
    requires Linear(OPS, t) && x & 0xff == 0 && below == x >> 8
    ensures Next(OPS, t, x) == below
  {
    OpsAreLawful();
    LinearKeepsZero(OPS, t);
    assert CancelsAt(OPS, below);
  }

  lemma {:induction false} ByteAtBottom(t: bv32 -> bv32, b: bv32)
    requires b & 0xff == b
    ensures Next(OPS, t, b) == t(b)
  {
    NothingAbove(b);
    assert CancelsAt(OPS, t(b));
    OpsAreLawful();
    assert CommutesAt(OPS, 0, t(b));
  }

  lemma {:induction false} NothingAbove(b: bv32)
    requires b & 0xff == b
    ensures b >> 8 == 0
  {}

  /** A byte k places up comes down to the bottom in k steps. */
  lemma {:induction false} ByteComesDown(t: bv32 -> bv32, b: bv32, w1: bv32, w2: bv32, w3: bv32)
    requires Linear(OPS, t) && b & 0xff == b && w1 == b << 8 && w2 == b << 16 && w3 == b << 24
    ensures Placed(OPS, t, 0, b, b) && Placed(OPS, t, 1, b, w1) && Placed(OPS, t, 2, b, w2) && Placed(OPS, t, 3, b, w3)
  {
    ByteAtBottom(t, b);
    ByteBelow(t, w1, b);
    ByteBelow(t, w2, w1);
    ByteBelow(t, w3, w2);
    assert Nexts(OPS, t, 1, w1) == Nexts(OPS, t, 0, b);
    assert Nexts(OPS, t, 2, w2) == Nexts(OPS, t, 1, w1);
    assert Nexts(OPS, t, 3, w3) == Nexts(OPS, t, 2, w2);
  }

  lemma {:induction false} Assemble(c: bv32, b0: bv32, b1: bv32, b2: bv32, b3: bv32)
    requires b0 == c & 0xff && b1 == (c >> 8) & 0xff && b2 == (c >> 16) & 0xff && b3 == (c >> 24) & 0xff
    ensures c == OPS.xor(OPS.xor(OPS.xor(b0, b1 << 8), b2 << 16), b3 << 24)
    ensures b0 & 0xff == b0 && b1 & 0xff == b1 && b2 & 0xff == b2 && b3 & 0xff == b3
  {}

  lemma {:induction false} LookupsAreAdded(t: bv32 -> bv32, b0: bv32, b1: bv32, b2: bv32, b3: bv32,
                                           s0: bv32, s1: bv32, s2: bv32, s3: bv32, all: bv32)
    requires s3 == Slice(OPS, t, 3, b0) && s2 == Slice(OPS, t, 2, b1)
    requires s1 == Slice(OPS, t, 1, b2) && s0 == Slice(OPS, t, 0, b3)
    requires all == OPS.xor(OPS.xor(OPS.xor(s3, s2), s1), s0)
    ensures Lookups(t, b0, b1, b2, b3) == all
  {}

  /** Slicing by four: one big-table step is four small-table steps. */
  lemma {:induction false} BigStepIsFour(t: bv32 -> bv32, c: bv32)
    requires Linear(OPS, t)
    ensures BigStep(t, c) == Nexts(OPS, t, 4, c)
  {
    var b0, b1, b2, b3 := c & 0xff, (c >> 8) & 0xff, (c >> 16) & 0xff, (c >> 24) & 0xff;
    Assemble(c, b0, b1, b2, b3);
    ByteComesDown(t, b0, b0 << 8, b0 << 16, b0 << 24);
    ByteComesDown(t, b1, b1 << 8, b1 << 16, b1 << 24);
    ByteComesDown(t, b2, b2 << 8, b2 << 16, b2 << 24);
    ByteComesDown(t, b3, b3 << 8, b3 << 16, b3 << 24);
    OpsAreLawful();
    FourBytes(OPS, t, c, b0, b1, b2, b3, b1 << 8, b2 << 16, b3 << 24);
    LookupsAreAdded(t, b0, b1, b2, b3, Slice(OPS, t, 0, b3), Slice(OPS, t, 1, b2), Slice(OPS, t, 2, b1), Slice(OPS,
        t, 3, b0),
                    Nexts(OPS, t, 4, c));
  }

  lemma {:induction false} FourBytes(o: Ops<bv32>, t: bv32 -> bv32, c: bv32, b0: bv32, b1: bv32, b2: bv32, b3: bv32,
                                     w1: bv32, w2: bv32, w3: bv32)
    requires Lawful(o) && Linear(o, t)
    requires c == o.xor(o.xor(o.xor(b0, w1), w2), w3)
    requires Placed(o, t, 0, b0, b0) && Placed(o, t, 1, b1, w1)
    requires Placed(o, t, 2, b2, w2) && Placed(o, t, 3, b3, w3)
    ensures o.xor(o.xor(o.xor(Slice(o, t, 3, b0), Slice(o, t, 2, b1)), Slice(o, t, 1, b2)), Slice(o, t, 0, b3))
         == Nexts(o, t, 4, c)
  {
    FourSteps(o, t, b0, b1, b2, b3, w1, w2, w3);
  }

  lemma {:induction false} WordApart(d0: bv8, d1: bv8, d2: bv8, d3: bv8, c: bv32)
    ensures OPS.xor(OPS.xor(OPS.xor(OPS.xor(c, d0 as bv32), (d1 as bv32) << 8), (d2 as bv32) << 16), (d3 as bv32) << 24)
         == OPS.xor(c, Word(d0, d1, d2, d3))
  {}

  lemma {:induction false} ByteFits(b: bv8)
    ensures (b as bv32) & 0xff == b as bv32
  {}

  /** The words that hold a byte one, two and three places up. */
  lemma {:induction false} ByteWords(t: bv32 -> bv32, b: bv8) returns (w: (bv32, bv32, bv32))
    requires Linear(OPS, t)
    ensures w == ((b as bv32) << 8, (b as bv32) << 16, (b as bv32) << 24)
    ensures Nexts(OPS, t, 1, w.0) == b as bv32
    ensures Nexts(OPS, t, 2, w.1) == b as bv32
    ensures Nexts(OPS, t, 3, w.2) == b as bv32
  {
    w := ((b as bv32) << 8, (b as bv32) << 16, (b as bv32) << 24);
    ByteFits(b);
    ByteComesDown(t, b as bv32, w.0, w.1, w.2);
  }

  /** Four bytes of a message, fed one by one, are their word fed at once. */
  lemma {:induction false} FeedWord(t: bv32 -> bv32, c: bv32, data: seq<bv8>, k: nat, c': bv32)
    requires Linear(OPS, t) && k + 4 <= |data|
    requires c' == Nexts(OPS, t, 4, OPS.xor(c, Word(data[k], data[k + 1], data[k + 2], data[k + 3])))
    ensures Feed(OPS, t, c, Widen(data)[k..]) == Feed(OPS, t, c', Widen(data)[k + 4..])
  {
    var all := OPS.xor(c, Word(data[k], data[k + 1], data[k + 2], data[k + 3]));
    var w1, w2, w3 := WordParts(t, c, data[k], data[k + 1], data[k + 2], data[k + 3], all);
    FeedParts(OPS, t, c, data, k, Widen(data), w1, w2, w3, all, c');
  }

  lemma {:induction false} WordParts(t: bv32 -> bv32, c: bv32, d0: bv8, d1: bv8, d2: bv8, d3: bv8, all: bv32)
    returns (w1: bv32, w2: bv32, w3: bv32)
    requires Linear(OPS, t) && all == OPS.xor(c, Word(d0, d1, d2, d3))
    ensures Lawful(OPS)
    ensures Nexts(OPS, t, 1, w1) == d1 as bv32 && Nexts(OPS, t, 2, w2) == d2 as bv32 && Nexts(OPS, t, 3, w3) == d3 as bv32
    ensures all == OPS.xor(OPS.xor(OPS.xor(OPS.xor(c, d0 as bv32), w1), w2), w3)
  {
    var b1 := ByteWords(t, d1);
    var b2 := ByteWords(t, d2);
    var b3 := ByteWords(t, d3);
    w1, w2, w3 := b1.0, b2.1, b3.2;
    WordApart(d0, d1, d2, d3, c);
    OpsAreLawful();
  }

  lemma {:induction false} FeedParts(o: Ops<bv32>, t: bv32 -> bv32, c: bv32, data: seq<bv8>, k: nat, words: seq<bv32>,
                                     w1: bv32, w2: bv32, w3: bv32, all: bv32, c': bv32)
    requires Lawful(o) && Linear(o, t)
    requires k + 4 <= |data| && words == Widen(data)
    requires Nexts(o, t, 1, w1) == data[k + 1] as bv32
    requires Nexts(o, t, 2, w2) == data[k + 2] as bv32
    requires Nexts(o, t, 3, w3) == data[k + 3] as bv32
    requires all == o.xor(o.xor(o.xor(o.xor(c, data[k] as bv32), w1), w2), w3)
    requires c' == Nexts(o, t, 4, all)
    ensures Feed(o, t, c, words[k..]) == Feed(o, t, c', words[k + 4..])
  {
    assert words[k] == data[k] as bv32;
    assert words[k + 1] == data[k + 1] as bv32;
    assert words[k + 2] == data[k + 2] as bv32;
    assert words[k + 3] == data[k + 3] as bv32;
    FeedFourBytes(o, t, c, words, k, w1, w2, w3, all);
  }
}
