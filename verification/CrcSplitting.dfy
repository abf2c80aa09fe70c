/** A message may be checked in parts: the stored seed is the raw register, before any final
    complement or swap, so the update goes on exactly where the last part ended. */
module CrcSplitting {
  import opened Crc
  import opened FastCrc
  import opened FastCrc16

  /** The parts of a message, put together. */
  function Concat(parts: seq<seq<bv8>>): seq<bv8> {
    if |parts| == 0 then [] else Concat(parts[..|parts| - 1]) + parts[|parts| - 1]
  }

  lemma {:induction false} ConcatOneMore(parts: seq<seq<bv8>>, k: nat)
    requires k < |parts|
    ensures Concat(parts[..k + 1]) == Concat(parts[..k]) + parts[k]
  {
    assert parts[..k + 1][..k] == parts[..k];
  }

  lemma {:induction false} ConcatOne(parts: seq<seq<bv8>>)
    requires |parts| > 0
    ensures Concat(parts[..1]) == parts[0]
  {
    ConcatOneMore(parts, 0);
    assert Concat(parts[..0]) == [];
  }

  // ----- A register fed two parts is the register fed their concatenation -----

  lemma {:induction false} ReflectedAppend(p: bv32, r: bv32, a: seq<bv8>, b: seq<bv8>)
    ensures Reflected(p, r, a + b) == Reflected(p, Reflected(p, r, a), b)
    decreases a
  {
    if |a| == 0 {
      assert a + b == b;
    } else {
      assert (a + b)[1..] == a[1..] + b;
      ReflectedAppend(p, ReflectedBits(p, r, a[0] as bv32, 8), a[1..], b);
    }
  }

  lemma {:induction false} ForwardAppend(p: bv32, r: bv32, a: seq<bv8>, b: seq<bv8>)
    ensures Forward(p, r, a + b) == Forward(p, Forward(p, r, a), b)
    decreases a
  {
    if |a| == 0 {
      assert a + b == b;
    } else {
      assert (a + b)[1..] == a[1..] + b;
      ForwardAppend(p, ForwardBits(p, r, (a[0] as bv32) << 24, 8), a[1..], b);
    }
  }

  lemma {:induction false} Reflected16Append(p: bv16, r: bv16, a: seq<bv8>, b: seq<bv8>)
    ensures Reflected16(p, r, a + b) == Reflected16(p, Reflected16(p, r, a), b)
    decreases a
  {
    if |a| == 0 {
      assert a + b == b;
    } else {
      assert (a + b)[1..] == a[1..] + b;
      Reflected16Append(p, ReflectedBits16(p, r, a[0] as bv16, 8), a[1..], b);
    }
  }

  lemma {:induction false} Forward16Append(p: bv16, r: bv16, a: seq<bv8>, b: seq<bv8>)
    ensures Forward16(p, r, a + b) == Forward16(p, Forward16(p, r, a), b)
    decreases a
  {
    if |a| == 0 {
      assert a + b == b;
    } else {
      assert (a + b)[1..] == a[1..] + b;
      Forward16Append(p, ForwardBits16(p, r, (a[0] as bv16) << 8, 8), a[1..], b);
    }
  }

  // ----- The calls of a client that has its message in parts, each at an address of its own -----

  method Crc32InParts(crc: FastCRC32, parts: seq<seq<bv8>>, addresses: seq<nat>) returns (check: bv32)
    requires |parts| == |addresses| > 0
    modifies crc
    ensures check == Crc32Of(Concat(parts))
  {
    check := crc.Crc32(parts[0], addresses[0]);
    ConcatOne(parts);
    for k := 1 to |parts|
      invariant crc.seed == Reflected(CRC32_POLY, 0xFFFF_FFFF, Concat(parts[..k]))
      invariant check == Crc32Of(Concat(parts[..k]))
    {
      check := crc.Crc32Upd(parts[k], addresses[k]);
      ConcatOneMore(parts, k);
      ReflectedAppend(CRC32_POLY, 0xFFFF_FFFF, Concat(parts[..k]), parts[k]);
    }
    assert parts[..|parts|] == parts;
  }

  method CksumInParts(crc: FastCRC32, parts: seq<seq<bv8>>, addresses: seq<nat>) returns (check: bv32)
    requires |parts| == |addresses| > 0
    modifies crc
    ensures check == CksumOf(Concat(parts))
  {
    check := crc.Cksum(parts[0], addresses[0]);
    ConcatOne(parts);
    for k := 1 to |parts|
      invariant Rev32(crc.seed) == Forward(CKSUM_POLY, 0, Concat(parts[..k]))
      invariant check == CksumOf(Concat(parts[..k]))
    {
      check := crc.CksumUpd(parts[k], addresses[k]);
      ConcatOneMore(parts, k);
      ForwardAppend(CKSUM_POLY, 0, Concat(parts[..k]), parts[k]);
    }
    assert parts[..|parts|] == parts;
  }

  method CcittInParts(crc: FastCRC16, parts: seq<seq<bv8>>, addresses: seq<nat>) returns (check: bv16)
    requires |parts| == |addresses| > 0
    modifies crc
    ensures check == Forward16(CCITT_POLY, 0xffff, Concat(parts))
  {
    check := crc.Ccitt(parts[0], addresses[0]);
    ConcatOne(parts);
    for k := 1 to |parts|
      invariant check == Rev16(crc.seed) == Forward16(CCITT_POLY, 0xffff, Concat(parts[..k]))
    {
      check := crc.CcittUpd(parts[k], addresses[k]);
      ConcatOneMore(parts, k);
      Forward16Append(CCITT_POLY, 0xffff, Concat(parts[..k]), parts[k]);
    }
    assert parts[..|parts|] == parts;
  }

  method X25InParts(crc: FastCRC16, parts: seq<seq<bv8>>, addresses: seq<nat>) returns (check: bv16)
    requires |parts| == |addresses| > 0
    modifies crc
    ensures check == !Reflected16(CCITT_POLY_REFLECTED, 0xffff, Concat(parts))
  {
    check := crc.X25(parts[0], addresses[0]);
    ConcatOne(parts);
    for k := 1 to |parts|
      invariant crc.seed == Reflected16(CCITT_POLY_REFLECTED, 0xffff, Concat(parts[..k]))
      invariant check == !Reflected16(CCITT_POLY_REFLECTED, 0xffff, Concat(parts[..k]))
    {
      check := crc.X25Upd(parts[k], addresses[k]);
      ConcatOneMore(parts, k);
      Reflected16Append(CCITT_POLY_REFLECTED, 0xffff, Concat(parts[..k]), parts[k]);
    }
    assert parts[..|parts|] == parts;
  }
}
