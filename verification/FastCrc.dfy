/** FastCRC16 and FastCRC32: the update loops, proved to compute the bit-by-bit checks. */
module FastCrc {
  import opened CrcTheory
  import opened Crc

  // ----- Where a loop stands -----

  /** The register crc, with the message left from at on, leads where the seed leads with all of it. */
  ghost predicate InStep(t: bv32 -> bv32, seed: bv32, data: seq<bv8>, at: nat, crc: bv32) {
    at <= |data| && Feed(OPS, t, crc, Widen(data)[at..]) == Feed(OPS, t, seed, Widen(data))
  }

  lemma {:induction false} Starts(t: bv32 -> bv32, seed: bv32, data: seq<bv8>)
    ensures InStep(t, seed, data, 0, seed)
  {
    assert Widen(data)[0..] == Widen(data);
  }

  lemma {:induction false} Ends(t: bv32 -> bv32, seed: bv32, data: seq<bv8>, crc: bv32)
    requires InStep(t, seed, data, |data|, crc)
    ensures crc == Feed(OPS, t, seed, Widen(data))
  {}

  /** One byte through the table, as the loops write it. */
  function ByteStep(t: bv32 -> bv32, crc: bv32, b: bv8): bv32 {
    Advance(crc, t(Index(crc, b)))
  }

  function Index(crc: bv32, b: bv8): bv32 { (crc & 0xff) ^ (b as bv32) }

  function Advance(crc: bv32, entry: bv32): bv32 { (crc >> 8) ^ entry }

  lemma {:induction false} ByteEnters(crc: bv32, b: bv8)
    ensures OPS.high(OPS.xor(crc, b as bv32)) == crc >> 8
    ensures OPS.low(OPS.xor(crc, b as bv32)) == Index(crc, b)
  {}

  lemma {:induction false} ByteStepIsNext(t: bv32 -> bv32, crc: bv32, b: bv8)
    ensures ByteStep(t, crc, b) == Next(OPS, t, OPS.xor(crc, b as bv32))
  {
    ByteEnters(crc, b);
  }

  lemma {:induction false} ByteKeepsStep(t: bv32 -> bv32, seed: bv32, data: seq<bv8>, at: nat, crc: bv32)
    requires InStep(t, seed, data, at, crc) && at < |data|
    ensures InStep(t, seed, data, at + 1, ByteStep(t, crc, data[at]))
  {
    ByteStepIsNext(t, crc, data[at]);
    FeedOne(OPS, t, crc, Widen(data), at, ByteStep(t, crc, data[at]));
  }

  /** The little-endian word that lies at a place in the message. */
  function WordAt(data: seq<bv8>, at: nat): bv32
    requires at + 4 <= |data|
  {
    Word(data[at], data[at + 1], data[at + 2], data[at + 3])
  }

  lemma {:induction false} WordKeepsStep(t: bv32 -> bv32, seed: bv32, data: seq<bv8>, at: nat, crc: bv32, next: bv32)
    requires Linear(OPS, t) && InStep(t, seed, data, at, crc) && at + 4 <= |data|
    requires next == Nexts(OPS, t, 4, OPS.xor(crc, WordAt(data, at)))
    ensures InStep(t, seed, data, at + 4, next)
  {
    FeedWord(t, crc, data, at, next);
  }

  // ----- The 32-bit loops -----

  /** The macro crc_n4d: a word through the big table. */
  method WordByBigTable(t: bv32 -> bv32, crc: bv32, data: bv32) returns (r: bv32)
    requires Linear(OPS, t)
    ensures r == Nexts(OPS, t, 4, OPS.xor(crc, data))
  {
    r := OPS.xor(crc, data);
    BigStepIsFour(t, r);
    r := BigStep(t, r);
  }

  function ZeroByteStep(t: bv32 -> bv32, r: bv32): bv32 {
    (r >> 8) ^ t(r & 0xff)
  }

  lemma {:induction false} ZeroByteIsNext(t: bv32 -> bv32, r: bv32)
    ensures ZeroByteStep(t, r) == Next(OPS, t, r)
  {}

  /** The macro crcsm_n4d: a word through the byte table, a byte at a time. */
  method WordBySmallTable(t: bv32 -> bv32, crc: bv32, data: bv32) returns (r: bv32)
    ensures r == Nexts(OPS, t, 4, OPS.xor(crc, data))
  {
    r := OPS.xor(crc, data);
    var left := 4;
    while left > 0
      invariant 0 <= left <= 4
      invariant Nexts(OPS, t, left, r) == Nexts(OPS, t, 4, OPS.xor(crc, data))
    {
      ZeroByteIsNext(t, r);
      r := ZeroByteStep(t, r);
      left := left - 1;
    }
  }

  /** The loops of crc32_upd and cksum_upd, which differ only in their table. The message lies at
      an address; bigTables is the CRC_BIGTABLES configuration. */
  method Update32(t: bv32 -> bv32, bigTables: bool, seed: bv32, data: seq<bv8>, address: nat) returns (crc: bv32)
    requires Linear(OPS, t)
    ensures crc == Feed(OPS, t, seed, Widen(data))
  {
    Starts(t, seed, data);
    var at;
    at, crc := UpToBoundary32(t, seed, data, address);
    at, crc := Blocks32(t, bigTables, seed, data, address, at, crc);
    crc := Rest32(t, seed, data, at, crc);
    Ends(t, seed, data, crc);
  }

  /** Bytes up to a word boundary. */
  method UpToBoundary32(t: bv32 -> bv32, seed: bv32, data: seq<bv8>, address: nat) returns (at: nat, crc: bv32)
    requires InStep(t, seed, data, 0, seed)
    ensures InStep(t, seed, data, at, crc)
    ensures Aligned(address + at) || at == |data|
  {
    at, crc := 0, seed;
    while !Aligned(address + at) && at < |data|
      invariant InStep(t, seed, data, at, crc)
    {
      crc := Byte32(t, seed, data, at, crc);
      at := at + 1;
    }
  }

  /** Sixteen bytes at a time, as four little-endian words. */
  method Blocks32(t: bv32 -> bv32, bigTables: bool, ghost seed: bv32, data: seq<bv8>, ghost address: nat,
                  from: nat, crc: bv32)
    returns (at: nat, r: bv32)
    requires Linear(OPS, t) && InStep(t, seed, data, from, crc)
    requires Aligned(address + from) || from == |data|
    ensures InStep(t, seed, data, at, r)
    ensures |data| - at < 16
  {
    at, r := from, crc;
    while |data| - at >= 16
      invariant InStep(t, seed, data, at, r)
      invariant Aligned(address + at) || at == |data|
    {
      r := Block32(t, bigTables, seed, data, address, at, r);
      at := at + 16;
    }
  }

  /** The bytes left over. */
  method Rest32(t: bv32 -> bv32, ghost seed: bv32, data: seq<bv8>, from: nat, crc: bv32) returns (r: bv32)
    requires InStep(t, seed, data, from, crc)
    ensures InStep(t, seed, data, |data|, r)
  {
    var at := from;
    r := crc;
    while at < |data|
      invariant InStep(t, seed, data, at, r)
    {
      r := Byte32(t, seed, data, at, r);
      at := at + 1;
    }
  }

  /** No remainder of the address modulo four. */
  predicate Aligned(address: nat) {
    if address < 4 then address == 0 else Aligned(address - 4)
  }

  method Byte32(t: bv32 -> bv32, ghost seed: bv32, data: seq<bv8>, at: nat, crc: bv32) returns (r: bv32)
    requires InStep(t, seed, data, at, crc) && at < |data|
    ensures InStep(t, seed, data, at + 1, r)
  {
    r := ByteStep(t, crc, data[at]);
    ByteKeepsStep(t, seed, data, at, crc);
  }

  method Block32(t: bv32 -> bv32, bigTables: bool, ghost seed: bv32, data: seq<bv8>, ghost address: nat, at: nat, crc: bv32)
    returns (r: bv32)
    requires Linear(OPS, t) && InStep(t, seed, data, at, crc) && at + 16 <= |data|
    requires Aligned(address + at)
    ensures InStep(t, seed, data, at + 16, r)
    ensures Aligned(address + at + 16)
  {
    r := Word32(t, bigTables, seed, data, address, at, crc);
    r := Word32(t, bigTables, seed, data, address, at + 4, r);
    r := Word32(t, bigTables, seed, data, address, at + 8, r);
    r := Word32(t, bigTables, seed, data, address, at + 12, r);
  }

  /** A word is only ever read at an aligned address. */
  method Word32(t: bv32 -> bv32, bigTables: bool, ghost seed: bv32, data: seq<bv8>, ghost address: nat, at: nat, crc: bv32)
    returns (r: bv32)
    requires Linear(OPS, t) && InStep(t, seed, data, at, crc) && at + 4 <= |data|
    requires Aligned(address + at)
    ensures InStep(t, seed, data, at + 4, r)
    ensures Aligned(address + at + 4)
  {
    if bigTables {
      r := WordByBigTable(t, crc, WordAt(data, at));
    } else {
      r := WordBySmallTable(t, crc, WordAt(data, at));
    }
    WordKeepsStep(t, seed, data, at, crc, r);
  }

  // ----- FastCRC32 -----

  const CRC32_POLY: bv32 := 0xEDB8_8320
  const CKSUM_POLY: bv32 := 0x04C1_1DB7

  /** CRC-32 (section 8 of RFC 1952), bit by bit, and the POSIX check without its length. */
  function Crc32Of(data: seq<bv8>): bv32 {
    !Reflected(CRC32_POLY, 0xFFFF_FFFF, data)
  }

  function CksumOf(data: seq<bv8>): bv32 {
    !Forward(CKSUM_POLY, 0, data)
  }

  /** What a byte-swapped register is returned as. */
  function SwappedOut(crc: bv32): bv32 {
    !Rev32(crc)
  }

  method UpdateReflected32(p: bv32, bigTables: bool, seed: bv32, data: seq<bv8>, address: nat) returns (crc: bv32)
    ensures crc == Reflected(p, seed, data)
  {
    ReflectedTableIsLinear(p);
    FeedIsReflected(p, seed, data);
    crc := Update32(ReflectedTable(p), bigTables, seed, data, address);
  }

  method UpdateSwapped32(p: bv32, bigTables: bool, seed: bv32, data: seq<bv8>, address: nat) returns (crc: bv32)
    ensures Rev32(crc) == Forward(p, Rev32(seed), data)
  {
    SwappedTableIsLinear(p);
    FeedIsForward(p, Rev32(seed), data);
    RevTwice(seed);
    RevTwice(Forward(p, Rev32(seed), data));
    crc := Update32(SwappedTable(p), bigTables, seed, data, address);
  }

  class FastCRC32 {
    const bigTables: bool
    var seed: bv32

    constructor (bigTables: bool) {
      this.bigTables := bigTables;
      seed := 0;
    }

    method Crc32Upd(data: seq<bv8>, address: nat) returns (crc: bv32)
      modifies this
      ensures seed == Reflected(CRC32_POLY, old(seed), data)
      ensures crc == !seed
    {
      seed := UpdateReflected32(CRC32_POLY, bigTables, seed, data, address);
      crc := !seed;
    }

    method Crc32(data: seq<bv8>, address: nat) returns (crc: bv32)
      modifies this
      ensures seed == Reflected(CRC32_POLY, 0xFFFF_FFFF, data)
      ensures crc == Crc32Of(data)
    {
      seed := 0xFFFF_FFFF;
      crc := Crc32Upd(data, address);
    }

    /** The register is kept byte-swapped: the seed is the swap of the left-shifting register. */
    method CksumUpd(data: seq<bv8>, address: nat) returns (crc: bv32)
      modifies this
      ensures Rev32(seed) == Forward(CKSUM_POLY, Rev32(old(seed)), data)
      ensures crc == SwappedOut(seed)
    {
      crc := UpdateSwapped32(CKSUM_POLY, bigTables, seed, data, address);
      seed := crc;
      crc := SwappedOut(crc);
    }

    method Cksum(data: seq<bv8>, address: nat) returns (crc: bv32)
      modifies this
      ensures Rev32(seed) == Forward(CKSUM_POLY, 0, data)
      ensures crc == CksumOf(data)
    {
      seed := 0;
      crc := CksumUpd(data, address);
    }
  }
}
