/** FastCRC16: registers of 16 bits, kept reflected or byte-swapped, proved to compute the
    bit-by-bit checks. The proofs carry a 16-bit register inside a 32-bit one: a reflected
    register in the low half, a left-shifting one in the high half, so that byte-swapped both
    stand in the low half. */
module FastCrc16 {
  import opened CrcTheory
  import opened Crc
  import opened FastCrc

  // ----- Bit by bit -----

  function ReflectedShift16(p: bv16, r: bv16): bv16 {
    (r >> 1) ^ (if r & 1 == 1 then p else 0)
  }

  function ForwardShift16(p: bv16, r: bv16): bv16 {
    (r << 1) ^ (if r & 0x8000 != 0 then p else 0)
  }

  /** The n lowest bits of m enter a reflected register one at a time, lowest first. */
  function ReflectedBits16(p: bv16, r: bv16, m: bv16, n: nat): bv16
    decreases n
  {
    if n == 0 then r else ReflectedBits16(p, ReflectedShift16(p, r ^ (m & 1)), m >> 1, n - 1)
  }

  /** The n highest bits of m enter at the top, highest first. */
  function ForwardBits16(p: bv16, r: bv16, m: bv16, n: nat): bv16
    decreases n
  {
    if n == 0 then r else ForwardBits16(p, ForwardShift16(p, r ^ (m & 0x8000)), m << 1, n - 1)
  }

  function Reflected16(p: bv16, r: bv16, data: seq<bv8>): bv16
    decreases data
  {
    if |data| == 0 then r else Reflected16(p, ReflectedBits16(p, r, data[0] as bv16, 8), data[1..])
  }

  function Forward16(p: bv16, r: bv16, data: seq<bv8>): bv16
    decreases data
  {
    if |data| == 0 then r else Forward16(p, ForwardBits16(p, r, (data[0] as bv16) << 8, 8), data[1..])
  }

  function Rev16(value: bv16): bv16 {
    (value >> 8) | ((value & 0xff) << 8)
  }

  // ----- 16 bits inside 32 -----

  function InLow(r: bv16): bv32 { r as bv32 }

  function InHigh(r: bv16): bv32 { (r as bv32) << 16 }

  lemma {:induction false} ShiftInLow(p: bv16, r: bv16)
    ensures ReflectedShift(InLow(p))(InLow(r)) == InLow(ReflectedShift16(p, r))
  {
    var moved, added := r >> 1, if r & 1 == 1 then p else 0;
    HalveInLow(r);
    LowAddsInLow(p, r);
    XorInLow(moved, added);
    ReflectedShiftParts(InLow(p), InLow(r), InLow(moved), InLow(added));
  }

  lemma {:induction false} ReflectedShiftParts(p: bv32, x: bv32, moved: bv32, added: bv32)
    requires moved == Halve(x) && added == LowAdds(p)(x)
    ensures ReflectedShift(p)(x) == OPS.xor(moved, added)
  {}

  lemma {:induction false} ForwardShiftParts(p: bv32, x: bv32, moved: bv32, added: bv32)
    requires moved == Double(x) && added == HighAdds(p)(x)
    ensures ForwardShift(p)(x) == OPS.xor(moved, added)
  {}

  lemma {:induction false} LowAddsInLow(p: bv16, r: bv16)
    ensures LowAdds(InLow(p))(InLow(r)) == InLow(if r & 1 == 1 then p else 0)
  {
    assert (InLow(r) & 1 == 1) == (r & 1 == 1);
  }

  lemma {:induction false} HalveInLow(r: bv16)
    ensures Halve(InLow(r)) == InLow(r >> 1)
  {}

  lemma {:induction false} XorInLow(a: bv16, b: bv16)
    ensures OPS.xor(InLow(a), InLow(b)) == InLow(a ^ b)
  {}

  lemma {:induction false} ShiftInHigh(p: bv16, r: bv16)
    ensures ForwardShift(InHigh(p))(InHigh(r)) == InHigh(ForwardShift16(p, r))
  {
    var moved, added := ForwardParts16(p, r);
    XorInHigh(moved, added);
    ForwardShiftParts(InHigh(p), InHigh(r), InHigh(moved), InHigh(added));
  }

  lemma {:induction false} ForwardParts16(p: bv16, r: bv16) returns (moved: bv16, added: bv16)
    ensures ForwardShift16(p, r) == moved ^ added
    ensures Double(InHigh(r)) == InHigh(moved)
    ensures HighAdds(InHigh(p))(InHigh(r)) == InHigh(added)
  {
    moved, added := r << 1, if r & 0x8000 != 0 then p else 0;
    DoubleInHigh(r);
    HighAddsInHigh(p, r);
  }

  lemma {:induction false} HighAddsInHigh(p: bv16, r: bv16)
    ensures HighAdds(InHigh(p))(InHigh(r)) == InHigh(if r & 0x8000 != 0 then p else 0)
  {
    assert (InHigh(r) & 0x8000_0000 != 0) == (r & 0x8000 != 0);
  }

  lemma {:induction false} DoubleInHigh(r: bv16)
    ensures Double(InHigh(r)) == InHigh(r << 1)
  {}

  lemma {:induction false} XorInHigh(a: bv16, b: bv16)
    ensures OPS.xor(InHigh(a), InHigh(b)) == InHigh(a ^ b)
  {}

  lemma {:induction false} BitInLow(r: bv16, m: bv16)
    ensures InLow(r) ^ (InLow(m) & 1) == InLow(r ^ (m & 1))
    ensures InLow(m) >> 1 == InLow(m >> 1)
  {}

  lemma {:induction false} BitInHigh(r: bv16, m: bv16)
    ensures InHigh(r) ^ (InHigh(m) & 0x8000_0000) == InHigh(r ^ (m & 0x8000))
    ensures InHigh(m) << 1 == InHigh(m << 1)
  {}

  lemma {:induction false} BitsInLow(p: bv16, r: bv16, m: bv16, n: nat)
    ensures ReflectedBits(InLow(p), InLow(r), InLow(m), n) == InLow(ReflectedBits16(p, r, m, n))
    decreases n
  {
    if n > 0 {
      var s := r ^ (m & 1);
      BitInLow(r, m);
      ShiftInLow(p, s);
      OneBitInLow(p, r, m, n, s);
      BitsInLow(p, ReflectedShift16(p, s), m >> 1, n - 1);
    }
  }

  lemma {:induction false} OneBitInLow(p: bv16, r: bv16, m: bv16, n: nat, s: bv16)
    requires n > 0 && s == r ^ (m & 1)
    ensures ReflectedBits16(p, r, m, n) == ReflectedBits16(p, ReflectedShift16(p, s), m >> 1, n - 1)
  {}

  lemma {:induction false} OneBitInHigh(p: bv16, r: bv16, m: bv16, n: nat, s: bv16)
    requires n > 0 && s == r ^ (m & 0x8000)
    ensures ForwardBits16(p, r, m, n) == ForwardBits16(p, ForwardShift16(p, s), m << 1, n - 1)
  {}

  lemma {:induction false} BitsInHigh(p: bv16, r: bv16, m: bv16, n: nat)
    ensures ForwardBits(InHigh(p), InHigh(r), InHigh(m), n) == InHigh(ForwardBits16(p, r, m, n))
    decreases n
  {
    if n > 0 {
      var s := r ^ (m & 0x8000);
      BitInHigh(r, m);
      ShiftInHigh(p, s);
      OneBitInHigh(p, r, m, n, s);
      BitsInHigh(p, ForwardShift16(p, s), m << 1, n - 1);
    }
  }

  lemma {:induction false} ByteInPlace(b: bv8)
    ensures InLow(b as bv16) == b as bv32
    ensures InHigh((b as bv16) << 8) == (b as bv32) << 24
  {}

  lemma {:induction false} MessageInLow(p: bv16, r: bv16, data: seq<bv8>)
    ensures Reflected(InLow(p), InLow(r), data) == InLow(Reflected16(p, r, data))
    decreases data
  {
    if |data| > 0 {
      ByteInPlace(data[0]);
      BitsInLow(p, r, data[0] as bv16, 8);
      MessageInLow(p, ReflectedBits16(p, r, data[0] as bv16, 8), data[1..]);
    }
  }

  lemma {:induction false} MessageInHigh(p: bv16, r: bv16, data: seq<bv8>)
    ensures Forward(InHigh(p), InHigh(r), data) == InHigh(Forward16(p, r, data))
    decreases data
  {
    if |data| > 0 {
      ByteInPlace(data[0]);
      BitsInHigh(p, r, (data[0] as bv16) << 8, 8);
      MessageInHigh(p, ForwardBits16(p, r, (data[0] as bv16) << 8, 8), data[1..]);
    }
  }

  lemma {:induction false} RevOfHigh(r: bv16)
    ensures Rev32(InHigh(r)) == InLow(Rev16(r))
    ensures Rev16(Rev16(r)) == r
  {}

  // ----- Tables of 16-bit entries -----

  predicate Narrow(x: bv32) { x & 0xffff_0000 == 0 }

  function Low(x: bv32): bv16 { (x & 0xffff) as bv16 }

  predicate IsByte(i: bv32) { i & 0xff == i }

  /** An entry of a 16-bit table, slice k. */
  function ReadWord(t: bv32 -> bv32, k: nat, i: bv32): bv16 {
    Low(Slice(OPS, t, k, i))
  }

  ghost predicate NarrowTable(t: bv32 -> bv32) {
    forall i :: IsByte(i) ==> Narrow(t(i))
  }

  lemma {:induction false} NarrowIsLow(x: bv32)
    requires Narrow(x)
    ensures InLow(Low(x)) == x
  {}

  lemma {:induction false} LowIsNarrow(r: bv16)
    ensures Narrow(InLow(r)) && Low(InLow(r)) == r
  {}

  lemma {:induction false} ShiftsStayLow(p: bv16, r: bv16, n: nat)
    ensures Narrow(Times(ReflectedShift(InLow(p)), n, InLow(r)))
    decreases n
  {
    if n == 0 {
      LowIsNarrow(r);
    } else {
      ShiftInLow(p, r);
      ShiftsStayLow(p, ReflectedShift16(p, r), n - 1);
    }
  }

  lemma {:induction false} ShiftsStayHigh(p: bv16, r: bv16, n: nat)
    ensures Narrow(Rev32(Times(ForwardShift(InHigh(p)), n, InHigh(r))))
    decreases n
  {
    if n == 0 {
      RevOfHigh(r);
      LowIsNarrow(Rev16(r));
    } else {
      ShiftInHigh(p, r);
      ShiftsStayHigh(p, ForwardShift16(p, r), n - 1);
    }
  }

  lemma {:induction false} ByteIsNarrow(i: bv32)
    requires IsByte(i)
    ensures Narrow(i) && Rev32(i) == InHigh(Rev16(Low(i)))
  {}

  lemma {:induction false} ReflectedTableIsNarrow(p: bv16)
    ensures NarrowTable(ReflectedTable(InLow(p)))
  {
    forall i | IsByte(i) ensures Narrow(ReflectedTable(InLow(p))(i)) {
      ByteIsNarrow(i);
      NarrowIsLow(i);
      ShiftsStayLow(p, Low(i), 8);
    }
  }

  lemma {:induction false} SwappedTableIsNarrow(p: bv16)
    ensures NarrowTable(SwappedTable(InHigh(p)))
  {
    forall i | IsByte(i) ensures Narrow(SwappedTable(InHigh(p))(i)) {
      ByteIsNarrow(i);
      ShiftsStayHigh(p, Rev16(Low(i)), 8);
    }
  }

  lemma {:induction false} XorIsNarrow(a: bv32, b: bv32)
    requires Narrow(a) && Narrow(b)
    ensures Narrow(OPS.xor(a, b)) && Low(OPS.xor(a, b)) == Low(a) ^ Low(b)
  {}

  lemma {:induction false} PartsAreNarrow(c: bv32)
    requires Narrow(c)
    ensures Narrow(OPS.high(c)) && IsByte(OPS.low(c))
  {}

  lemma {:induction false} SlicesAreNarrow(t: bv32 -> bv32, k: nat, i: bv32)
    requires NarrowTable(t) && IsByte(i)
    ensures Narrow(Slice(OPS, t, k, i))
  {
    if k > 0 {
      SlicesAreNarrow(t, k - 1, i);
      var below := Slice(OPS, t, k - 1, i);
      PartsAreNarrow(below);
      XorIsNarrow(OPS.high(below), t(OPS.low(below)));
    }
  }

  // ----- The steps -----

  /** One byte through the table. */
  function ByteStep16(t: bv32 -> bv32, crc: bv16, b: bv8): bv16 {
    Advance16(crc, ReadWord(t, 0, Index(InLow(crc), b)))
  }

  function Advance16(crc: bv16, entry: bv16): bv16 { (crc >> 8) ^ entry }

  lemma {:induction false} ByteStepInLow(t: bv32 -> bv32, crc: bv16, b: bv8)
    requires NarrowTable(t)
    ensures InLow(ByteStep16(t, crc, b)) == ByteStep(t, InLow(crc), b)
  {
    var i := Index(InLow(crc), b);
    IndexIsByte(InLow(crc), b);
    EntryInLow(t, i);
    AddEntry(crc, ReadWord(t, 0, i));
  }

  lemma {:induction false} EntryInLow(t: bv32 -> bv32, i: bv32)
    requires NarrowTable(t) && IsByte(i)
    ensures InLow(ReadWord(t, 0, i)) == t(i)
  {
    NarrowIsLow(t(i));
  }

  lemma {:induction false} AddEntry(crc: bv16, entry: bv16)
    ensures InLow(Advance16(crc, entry)) == Advance(InLow(crc), InLow(entry))
  {}

  lemma {:induction false} IndexIsByte(crc: bv32, b: bv8)
    ensures IsByte(Index(crc, b))
  {}

  /** The macro crc_n4: the register takes the low half of the word, and the high half goes
      straight to the table. */
  function WordStep16(t: bv32 -> bv32, crc: bv16, data: bv32): bv16 {
    var crc := crc ^ Low(data);
    Lookups16(t, InLow(crc) & 0xff, (InLow(crc) >> 8) & 0xff, (data >> 16) & 0xff, data >> 24)
  }

  function AddFour(a: bv16, b: bv16, c: bv16, d: bv16): bv16 { a ^ b ^ c ^ d }

  function Lookups16(t: bv32 -> bv32, b0: bv32, b1: bv32, b2: bv32, b3: bv32): bv16 {
    AddFour(ReadWord(t, 3, b0), ReadWord(t, 2, b1), ReadWord(t, 1, b2), ReadWord(t, 0, b3))
  }

  lemma {:induction false} SameIndices(t: bv32 -> bv32, crc: bv16, data: bv32, c: bv32, low: bv16)
    returns (b0: bv32, b1: bv32, b2: bv32, b3: bv32)
    requires c == OPS.xor(InLow(crc), data) && low == crc ^ Low(data)
    ensures WordStep16(t, crc, data) == Lookups16(t, b0, b1, b2, b3)
    ensures BigStep(t, c) == Lookups(t, b0, b1, b2, b3)
    ensures IsByte(b0) && IsByte(b1) && IsByte(b2) && IsByte(b3)
  {
    b0, b1, b2, b3 := c & 0xff, (c >> 8) & 0xff, (c >> 16) & 0xff, (c >> 24) & 0xff;
    IndexBytes(crc, data, c, low, b0, b1, b2, b3);
    WordStepIndices(t, crc, data, low, b0, b1, b2, b3);
  }

  lemma {:induction false} IndexBytes(crc: bv16, data: bv32, c: bv32, low: bv16, b0: bv32, b1: bv32, b2: bv32, b3: bv32)
    requires c == OPS.xor(InLow(crc), data) && low == crc ^ Low(data)
    requires b0 == c & 0xff && b1 == (c >> 8) & 0xff && b2 == (c >> 16) & 0xff && b3 == (c >> 24) & 0xff
    ensures InLow(low) & 0xff == b0 && (InLow(low) >> 8) & 0xff == b1
    ensures (data >> 16) & 0xff == b2 && data >> 24 == b3
    ensures IsByte(b0) && IsByte(b1) && IsByte(b2) && IsByte(b3)
  {}

  lemma {:induction false} LookupsInLow(t: bv32 -> bv32, b0: bv32, b1: bv32, b2: bv32, b3: bv32)
    requires NarrowTable(t) && IsByte(b0) && IsByte(b1) && IsByte(b2) && IsByte(b3)
    ensures InLow(Lookups16(t, b0, b1, b2, b3)) == Lookups(t, b0, b1, b2, b3)
  {
    SlicesAreNarrow(t, 3, b0);
    SlicesAreNarrow(t, 2, b1);
    SlicesAreNarrow(t, 1, b2);
    SlicesAreNarrow(t, 0, b3);
    var s3, s2, s1, s0 := Slice(OPS, t, 3, b0), Slice(OPS, t, 2, b1), Slice(OPS, t, 1, b2), Slice(OPS, t, 0, b3);
    FourNarrow(s3, s2, s1, s0);
    LookupsAreAdded(t, b0, b1, b2, b3, s0, s1, s2, s3, OPS.xor(OPS.xor(OPS.xor(s3, s2), s1), s0));
    Lookups16AreAdded(t, b0, b1, b2, b3, s0, s1, s2, s3);
  }

  lemma {:induction false} Lookups16AreAdded(t: bv32 -> bv32, b0: bv32, b1: bv32, b2: bv32, b3: bv32,
                                             s0: bv32, s1: bv32, s2: bv32, s3: bv32)
    requires s3 == Slice(OPS, t, 3, b0) && s2 == Slice(OPS, t, 2, b1)
    requires s1 == Slice(OPS, t, 1, b2) && s0 == Slice(OPS, t, 0, b3)
    ensures Lookups16(t, b0, b1, b2, b3) == AddFour(Low(s3), Low(s2), Low(s1), Low(s0))
  {}

  lemma {:induction false} FourNarrow(s3: bv32, s2: bv32, s1: bv32, s0: bv32)
    requires Narrow(s3) && Narrow(s2) && Narrow(s1) && Narrow(s0)
    ensures InLow(AddFour(Low(s3), Low(s2), Low(s1), Low(s0))) == OPS.xor(OPS.xor(OPS.xor(s3, s2), s1), s0)
  {}

  lemma {:induction false} WordStepInLow(t: bv32 -> bv32, crc: bv16, data: bv32)
    requires NarrowTable(t) && Linear(OPS, t)
    ensures InLow(WordStep16(t, crc, data)) == Nexts(OPS, t, 4, OPS.xor(InLow(crc), data))
  {
    var c := OPS.xor(InLow(crc), data);
    var b0, b1, b2, b3 := SameIndices(t, crc, data, c, crc ^ Low(data));
    LookupsInLow(t, b0, b1, b2, b3);
    BigStepIsFour(t, c);
  }

  lemma {:induction false} WordStepIndices(t: bv32 -> bv32, crc: bv16, data: bv32, low: bv16,
                                           b0: bv32, b1: bv32, b2: bv32, b3: bv32)
    requires low == crc ^ Low(data)
    requires InLow(low) & 0xff == b0 && (InLow(low) >> 8) & 0xff == b1
    requires (data >> 16) & 0xff == b2 && data >> 24 == b3
    ensures WordStep16(t, crc, data) == Lookups16(t, b0, b1, b2, b3)
  {}

  // ----- The loops -----

  ghost predicate InStep16(t: bv32 -> bv32, seed: bv16, data: seq<bv8>, at: nat, crc: bv16) {
    InStep(t, InLow(seed), data, at, InLow(crc))
  }

  /** The loops that the six checks share: bytes up to a word boundary, sixteen bytes at a time
      as four little-endian words, and the bytes left over. */
  method Update16(t: bv32 -> bv32, seed: bv16, data: seq<bv8>, address: nat) returns (crc: bv16)
    requires Linear(OPS, t) && NarrowTable(t)
    ensures InLow(crc) == Feed(OPS, t, InLow(seed), Widen(data))
  {
    Starts(t, InLow(seed), data);
    var at;
    at, crc := UpToBoundary16(t, seed, data, address);
    at, crc := Blocks16(t, seed, data, address, at, crc);
    crc := Rest16(t, seed, data, at, crc);
    Ends(t, InLow(seed), data, InLow(crc));
  }

  method UpToBoundary16(t: bv32 -> bv32, seed: bv16, data: seq<bv8>, address: nat) returns (at: nat, crc: bv16)
    requires NarrowTable(t) && InStep16(t, seed, data, 0, seed)
    ensures InStep16(t, seed, data, at, crc)
    ensures Aligned(address + at) || at == |data|
  {
    at, crc := 0, seed;
    while !Aligned(address + at) && at < |data|
      invariant InStep16(t, seed, data, at, crc)
      decreases |data| - at
    {
      crc := Byte16(t, seed, data, at, crc);
      at := at + 1;
    }
  }

  method Blocks16(t: bv32 -> bv32, ghost seed: bv16, data: seq<bv8>, ghost address: nat, from: nat, crc: bv16)
    returns (at: nat, r: bv16)
    requires Linear(OPS, t) && NarrowTable(t) && InStep16(t, seed, data, from, crc)
    requires Aligned(address + from) || from == |data|
    ensures InStep16(t, seed, data, at, r)
    ensures |data| - at < 16
  {
    at, r := from, crc;
    while |data| - at >= 16
      invariant InStep16(t, seed, data, at, r)
      invariant Aligned(address + at) || at == |data|
      decreases |data| - at
    {
      r := Block16(t, seed, data, address, at, r);
      at := at + 16;
    }
  }

  method Block16(t: bv32 -> bv32, ghost seed: bv16, data: seq<bv8>, ghost address: nat, at: nat, crc: bv16) returns (r: bv16)
    requires Linear(OPS, t) && NarrowTable(t) && InStep16(t, seed, data, at, crc) && at + 16 <= |data|
    requires Aligned(address + at)
    ensures InStep16(t, seed, data, at + 16, r)
    ensures Aligned(address + at + 16)
  {
    r := Word16(t, seed, data, address, at, crc);
    r := Word16(t, seed, data, address, at + 4, r);
    r := Word16(t, seed, data, address, at + 8, r);
    r := Word16(t, seed, data, address, at + 12, r);
  }

  method Rest16(t: bv32 -> bv32, ghost seed: bv16, data: seq<bv8>, from: nat, crc: bv16) returns (r: bv16)
    requires NarrowTable(t) && InStep16(t, seed, data, from, crc)
    ensures InStep16(t, seed, data, |data|, r)
  {
    var at := from;
    r := crc;
    while at < |data|
      invariant InStep16(t, seed, data, at, r)
      decreases |data| - at
    {
      r := Byte16(t, seed, data, at, r);
      at := at + 1;
    }
  }

  method Byte16(t: bv32 -> bv32, ghost seed: bv16, data: seq<bv8>, at: nat, crc: bv16) returns (r: bv16)
    requires NarrowTable(t) && InStep16(t, seed, data, at, crc) && at < |data|
    ensures InStep16(t, seed, data, at + 1, r)
  {
    r := ByteStep16(t, crc, data[at]);
    ByteStepInLow(t, crc, data[at]);
    ByteKeepsStep(t, InLow(seed), data, at, InLow(crc));
  }

  /** A word is only ever read at an aligned address. */
  method Word16(t: bv32 -> bv32, ghost seed: bv16, data: seq<bv8>, ghost address: nat, at: nat, crc: bv16)
    returns (r: bv16)
    requires Linear(OPS, t) && NarrowTable(t) && InStep16(t, seed, data, at, crc) && at + 4 <= |data|
    requires Aligned(address + at)
    ensures InStep16(t, seed, data, at + 4, r)
    ensures Aligned(address + at + 4)
  {
    r := WordStep16(t, crc, WordAt(data, at));
    WordStepInLow(t, crc, WordAt(data, at));
    WordKeepsStep(t, InLow(seed), data, at, InLow(crc), InLow(r));
  }

  method UpdateReflected16(p: bv16, seed: bv16, data: seq<bv8>, address: nat) returns (crc: bv16)
    ensures crc == Reflected16(p, seed, data)
  {
    ReflectedTableIsLinear(InLow(p));
    ReflectedTableIsNarrow(p);
    FeedIsReflected(InLow(p), InLow(seed), data);
    MessageInLow(p, seed, data);
    crc := Update16(ReflectedTable(InLow(p)), seed, data, address);
    LowIsNarrow(crc);
    LowIsNarrow(Reflected16(p, seed, data));
  }

  /** The register is kept byte-swapped: swapped back, it is the left-shifting one. */
  method UpdateSwapped16(p: bv16, seed: bv16, data: seq<bv8>, address: nat) returns (crc: bv16)
    ensures Rev16(crc) == Forward16(p, Rev16(seed), data)
  {
    SwappedTableIsLinear(InHigh(p));
    SwappedTableIsNarrow(p);
    SwappedFeed(p, seed, data);
    crc := Update16(SwappedTable(InHigh(p)), seed, data, address);
    LowIsNarrow(crc);
    LowIsNarrow(Rev16(Forward16(p, Rev16(seed), data)));
    RevOfHigh(Forward16(p, Rev16(seed), data));
  }

  lemma {:induction false} SwappedFeed(p: bv16, seed: bv16, data: seq<bv8>)
    ensures Feed(OPS, SwappedTable(InHigh(p)), InLow(seed), Widen(data)) == InLow(Rev16(Forward16(p, Rev16(seed), data)))
  {
    RevOfHigh(seed);
    RevOfHigh(Rev16(seed));
    FeedIsForward(InHigh(p), InHigh(Rev16(seed)), data);
    MessageInHigh(p, Rev16(seed), data);
    RevOfHigh(Forward16(p, Rev16(seed), data));
  }

  // ----- FastCRC16 -----

  const CCITT_POLY: bv16 := 0x1021
  const CCITT_POLY_REFLECTED: bv16 := 0x8408
  const MODBUS_POLY_REFLECTED: bv16 := 0xA001

  class FastCRC16 {
    var seed: bv16

    constructor () {
      seed := 0;
    }

    method CcittUpd(data: seq<bv8>, address: nat) returns (crc: bv16)
      modifies this
      ensures Rev16(seed) == Forward16(CCITT_POLY, Rev16(old(seed)), data)
      ensures crc == Rev16(seed)
    {
      crc := UpdateSwapped16(CCITT_POLY, seed, data, address);
      seed := crc;
      crc := Rev16(crc);
    }

    method Ccitt(data: seq<bv8>, address: nat) returns (crc: bv16)
      modifies this
      ensures Rev16(seed) == Forward16(CCITT_POLY, 0xffff, data)
      ensures crc == Forward16(CCITT_POLY, 0xffff, data)
    {
      seed := 0xffff;
      crc := CcittUpd(data, address);
    }

    method XmodemUpd(data: seq<bv8>, address: nat) returns (crc: bv16)
      modifies this
      ensures Rev16(seed) == Forward16(CCITT_POLY, Rev16(old(seed)), data)
      ensures crc == Rev16(seed)
    {
      crc := UpdateSwapped16(CCITT_POLY, seed, data, address);
      seed := crc;
      crc := Rev16(crc);
    }

    method Xmodem(data: seq<bv8>, address: nat) returns (crc: bv16)
      modifies this
      ensures Rev16(seed) == Forward16(CCITT_POLY, 0, data)
      ensures crc == Forward16(CCITT_POLY, 0, data)
    {
      seed := 0;
      crc := XmodemUpd(data, address);
    }

    method Mcrf4xxUpd(data: seq<bv8>, address: nat) returns (crc: bv16)
      modifies this
      ensures crc == seed == Reflected16(CCITT_POLY_REFLECTED, old(seed), data)
    {
      crc := UpdateReflected16(CCITT_POLY_REFLECTED, seed, data, address);
      seed := crc;
    }

    /** The code starts from 0, although its comment asks for 0xffff. */
    method Mcrf4xx(data: seq<bv8>, address: nat) returns (crc: bv16)
      modifies this
      ensures crc == seed == Reflected16(CCITT_POLY_REFLECTED, 0, data)
      ensures crc != Reflected16(CCITT_POLY_REFLECTED, 0xffff, data)
    {
      seed := 0;
      crc := Mcrf4xxUpd(data, address);
      SeedsStayApart(CCITT_POLY_REFLECTED, 0, 0xffff, data);
    }

    method ModbusUpd(data: seq<bv8>, address: nat) returns (crc: bv16)
      modifies this
      ensures crc == seed == Reflected16(MODBUS_POLY_REFLECTED, old(seed), data)
    {
      crc := UpdateReflected16(MODBUS_POLY_REFLECTED, seed, data, address);
      seed := crc;
    }

    method Modbus(data: seq<bv8>, address: nat) returns (crc: bv16)
      modifies this
      ensures crc == seed == Reflected16(MODBUS_POLY_REFLECTED, 0xffff, data)
    {
      seed := 0xffff;
      crc := ModbusUpd(data, address);
    }

    method KermitUpd(data: seq<bv8>, address: nat) returns (crc: bv16)
      modifies this
      ensures crc == seed == Reflected16(CCITT_POLY_REFLECTED, old(seed), data)
    {
      crc := UpdateReflected16(CCITT_POLY_REFLECTED, seed, data, address);
      seed := crc;
    }

    method Kermit(data: seq<bv8>, address: nat) returns (crc: bv16)
      modifies this
      ensures crc == seed == Reflected16(CCITT_POLY_REFLECTED, 0, data)
    {
      seed := 0;
      crc := KermitUpd(data, address);
    }

    method X25Upd(data: seq<bv8>, address: nat) returns (crc: bv16)
      modifies this
      ensures seed == Reflected16(CCITT_POLY_REFLECTED, old(seed), data)
      ensures crc == !seed
    {
      crc := UpdateReflected16(CCITT_POLY_REFLECTED, seed, data, address);
      seed := crc;
      crc := !crc;
    }

    method X25(data: seq<bv8>, address: nat) returns (crc: bv16)
      modifies this
      ensures seed == Reflected16(CCITT_POLY_REFLECTED, 0xffff, data)
      ensures crc == !Reflected16(CCITT_POLY_REFLECTED, 0xffff, data)
    {
      seed := 0xffff;
      crc := X25Upd(data, address);
    }
  }

  // ----- A check from another seed is another check -----

  /** The bit shifted out shows in the top bit, so nothing of the register is lost. */
  lemma {:induction false} ShiftIsInjective(p: bv16, a: bv16, b: bv16)
    requires p & 0x8000 != 0
    requires ReflectedShift16(p, a) == ReflectedShift16(p, b)
    ensures a == b
  {}

  lemma {:induction false} XorIsInjective(a: bv16, b: bv16, m: bv16)
    requires a ^ m == b ^ m
    ensures a == b
  {}

  lemma {:induction false} BitsAreInjective(p: bv16, a: bv16, b: bv16, m: bv16, n: nat)
    requires p & 0x8000 != 0 && a != b
    ensures ReflectedBits16(p, a, m, n) != ReflectedBits16(p, b, m, n)
    decreases n
  {
    if n > 0 {
      var x, y := a ^ (m & 1), b ^ (m & 1);
      if x == y {
        XorIsInjective(a, b, m & 1);
      }
      if ReflectedShift16(p, x) == ReflectedShift16(p, y) {
        ShiftIsInjective(p, x, y);
      }
      BitsAreInjective(p, ReflectedShift16(p, x), ReflectedShift16(p, y), m >> 1, n - 1);
    }
  }

  /** Registers that differ before a message differ after it: two seeds never give the same
      check, whatever the message. */
  lemma {:induction false} SeedsStayApart(p: bv16, a: bv16, b: bv16, data: seq<bv8>)
    requires p & 0x8000 != 0 && a != b
    ensures Reflected16(p, a, data) != Reflected16(p, b, data)
    decreases data
  {
    if |data| > 0 {
      BitsAreInjective(p, a, b, data[0] as bv16, 8);
      SeedsStayApart(p, ReflectedBits16(p, a, data[0] as bv16, 8), ReflectedBits16(p, b, data[0] as bv16, 8), data[1..]);
    }
  }
}
