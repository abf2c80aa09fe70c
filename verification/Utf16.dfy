/** UTF-16 (RFC 2781): encoder and decoder, mutually inverse. */
module Utf16 {
  import opened Utf8

  function UnitAt(s: seq<bv16>, i: nat): bv16 {
    if i < |s| then s[i] else 0
  }

  function UnitsTaken(s: seq<bv16>, from: nat, n: nat): seq<bv16> {
    seq(n, i requires 0 <= i => UnitAt(s, from + i))
  }

  class UnitSource {
    const units: seq<bv16>
    var at: nat

    constructor (units: seq<bv16>)
      ensures this.units == units && at == 0
    {
      this.units := units;
      at := 0;
    }

    method Take() returns (c: bv16)
      modifies this
      ensures c == UnitAt(units, old(at)) && at == old(at) + 1
    {
      c := if at < |units| then units[at] else 0;
      at := at + 1;
    }
  }

  class UnitSink {
    var units: seq<bv16>

    constructor ()
      ensures units == []
    {
      units := [];
    }

    method Put(c: bv16)
      modifies this
      ensures units == old(units) + [c]
    {
      units := units + [c];
    }
  }

  // ----- Encoder and decoder -----

  // The two surrogates of an offset from 0x10000 (section 2.1 of RFC 2781).
  function LeadUnit(v: bv32): bv16
    requires v <= 0xFFFFF
  {
    ((v >> 10) | 0xD800) as bv16
  }

  function TrailUnit(v: bv32): bv16 {
    ((v & 0x3FF) | 0xDC00) as bv16
  }

  function EncodeUnits(codepoint: bv32): seq<bv16>
    requires IsScalar(codepoint)
  {
    if codepoint <= 0xFFFF then [codepoint as bv16] else EncodePair(codepoint - 0x10000)
  }

  function EncodePair(v: bv32): seq<bv16>
    requires v <= 0xFFFFF
  {
    [LeadUnit(v), TrailUnit(v)]
  }

  /** The offset that two surrogates stand for (section 2.2 of RFC 2781). */
  function Offset(c: bv16, d: bv16): bv32 {
    ((c as bv32 & 0x3FF) << 10) | (d as bv32 & 0x3FF)
  }

  predicate IsPlain(c: bv16) { c < 0xD800 || c > 0xDFFF }

  predicate IsLead(c: bv16) { 0xD800 <= c <= 0xDBFF }

  predicate IsTrail(c: bv16) { 0xDC00 <= c <= 0xDFFF }

  function FromOffset(v: bv32): bv32 { v + 0x10000 }

  /** A lone low surrogate is refused after one unit; a high one takes the next unit with it. */
  function DecodeUnits(s: seq<bv16>, at: nat): Decoded<bv32> {
    var c := UnitAt(s, at);
    if IsPlain(c) then Decoded(true, c as bv32, 1)
    else if IsLead(c) then Decoded(IsTrail(UnitAt(s, at + 1)), FromOffset(Offset(c, UnitAt(s, at + 1))), 2)
    else Decoded(false, 0, 1)
  }

  // ----- Mutually inverse -----

  lemma {:induction false} PairOfOffset(v: bv32, c: bv16, d: bv16)
    requires v <= 0xFFFFF && c == LeadUnit(v) && d == TrailUnit(v)
    ensures IsLead(c) && IsTrail(d) && Offset(c, d) == v
  {}

  lemma {:induction false} OffsetOfPair(c: bv16, d: bv16, v: bv32)
    requires IsLead(c) && IsTrail(d) && v == Offset(c, d)
    ensures v <= 0xFFFFF && LeadUnit(v) == c && TrailUnit(v) == d
  {}

  lemma {:induction false} Supplementary(v: bv32, codepoint: bv32)
    requires v <= 0xFFFFF && codepoint == FromOffset(v)
    ensures 0x10000 <= codepoint <= 0x10FFFF && codepoint - 0x10000 == v && IsScalar(codepoint)
  {}

  lemma {:induction false} SupplementaryOffset(codepoint: bv32) returns (v: bv32)
    requires IsScalar(codepoint) && codepoint > 0xFFFF
    ensures v == codepoint - 0x10000 && v <= 0xFFFFF && FromOffset(v) == codepoint
  {
    v := codepoint - 0x10000;
  }

  lemma {:induction false} AcceptedPair(c: bv16, d: bv16) returns (codepoint: bv32)
    requires IsLead(c) && IsTrail(d)
    ensures codepoint == FromOffset(Offset(c, d)) && IsScalar(codepoint) && EncodeUnits(codepoint) == [c, d]
  {
    var v := Offset(c, d);
    codepoint := FromOffset(v);
    OffsetOfPair(c, d, v);
    Supplementary(v, codepoint);
    EncodeSupplementary(v, codepoint, c, d);
  }

  lemma {:induction false} EncodeSupplementary(v: bv32, codepoint: bv32, c: bv16, d: bv16)
    requires v <= 0xFFFFF && codepoint > 0xFFFF && IsScalar(codepoint) && codepoint - 0x10000 == v
    requires LeadUnit(v) == c && TrailUnit(v) == d
    ensures EncodeUnits(codepoint) == [c, d]
  {}

  lemma {:induction false} EncodedPair(codepoint: bv32) returns (c: bv16, d: bv16)
    requires IsScalar(codepoint) && codepoint > 0xFFFF
    ensures EncodeUnits(codepoint) == [c, d] && IsLead(c) && IsTrail(d) && FromOffset(Offset(c, d)) == codepoint
  {
    var v := SupplementaryOffset(codepoint);
    c, d := LeadUnit(v), TrailUnit(v);
    PairOfOffset(v, c, d);
  }

  lemma {:induction false} AcceptedUnit(c: bv16)
    requires IsPlain(c)
    ensures IsScalar(c as bv32) && EncodeUnits(c as bv32) == [c]
  {}

  lemma {:induction false} EncodedUnit(codepoint: bv32) returns (c: bv16)
    requires IsScalar(codepoint) && codepoint <= 0xFFFF
    ensures EncodeUnits(codepoint) == [c] && IsPlain(c) && c as bv32 == codepoint
  {
    c := codepoint as bv16;
    UnitIsCodePoint(codepoint, c);
    UnitIsPlain(codepoint, c);
  }

  lemma {:induction false} UnitIsCodePoint(codepoint: bv32, c: bv16)
    requires codepoint <= 0xFFFF && c == codepoint as bv16
    ensures c as bv32 == codepoint
  {}

  lemma {:induction false} UnitIsPlain(codepoint: bv32, c: bv16)
    requires IsScalar(codepoint) && c as bv32 == codepoint
    ensures IsPlain(c)
  {}

  lemma {:induction false} Kinds(c: bv16)
    ensures !(IsPlain(c) && IsLead(c))
  {}

  /** Whatever the decoder accepts is the encoding of its result. */
  lemma {:induction false} AcceptedUnitsAreEncoding(s: seq<bv16>, at: nat)
    requires DecodeUnits(s, at).ok
    ensures IsScalar(DecodeUnits(s, at).codepoint)
    ensures EncodeUnits(DecodeUnits(s, at).codepoint) == UnitsTaken(s, at, DecodeUnits(s, at).length)
  {
    var c := UnitAt(s, at);
    if IsPlain(c) {
      AcceptedUnit(c);
      assert UnitsTaken(s, at, 1) == [c];
    } else {
      AcceptedPairAt(s, at, c, UnitAt(s, at + 1));
    }
  }

  lemma {:induction false} AcceptedPairAt(s: seq<bv16>, at: nat, c: bv16, d: bv16)
    requires c == UnitAt(s, at) && d == UnitAt(s, at + 1) && !IsPlain(c) && DecodeUnits(s, at).ok
    ensures IsScalar(DecodeUnits(s, at).codepoint)
    ensures EncodeUnits(DecodeUnits(s, at).codepoint) == UnitsTaken(s, at, DecodeUnits(s, at).length)
  {
    var codepoint := AcceptedPair(c, d);
    assert DecodeUnits(s, at) == Decoded(true, codepoint, 2);
    PairTaken(s, at, c, d);
  }

  lemma {:induction false} PairTaken(s: seq<bv16>, at: nat, c: bv16, d: bv16)
    requires c == UnitAt(s, at) && d == UnitAt(s, at + 1)
    ensures UnitsTaken(s, at, 2) == [c, d]
  {}

  /** Wherever the encoding of a code point stands, the decoder reads that code point. */
  lemma {:induction false} DecodeOfUnits(s: seq<bv16>, at: nat, codepoint: bv32)
    requires IsScalar(codepoint)
    requires UnitsTaken(s, at, |EncodeUnits(codepoint)|) == EncodeUnits(codepoint)
    ensures DecodeUnits(s, at) == Decoded(true, codepoint, |EncodeUnits(codepoint)|)
  {
    if codepoint <= 0xFFFF {
      var c := EncodedUnit(codepoint);
      assert UnitAt(s, at) == UnitsTaken(s, at, 1)[0] == c;
    } else {
      var c, d := EncodedPair(codepoint);
      assert UnitAt(s, at) == UnitsTaken(s, at, 2)[0] == c;
      assert UnitAt(s, at + 1) == UnitsTaken(s, at, 2)[1] == d;
      Kinds(c);
    }
  }

  /** The units by their numbers (section 2.1 of RFC 2781). */
  lemma {:induction false} UnitsByNumber(codepoint: bv32)
    requires IsScalar(codepoint)
    ensures codepoint <= 0xFFFF ==> EncodeUnits(codepoint) == [codepoint as bv16]
    ensures codepoint > 0xFFFF ==>
      EncodeUnits(codepoint) == [((codepoint >> 10) + 0xD7C0) as bv16, ((codepoint & 0x3FF) + 0xDC00) as bv16]
  {
    if codepoint > 0xFFFF {
      var v := SupplementaryOffset(codepoint);
      PairByNumber(codepoint, v);
    }
  }

  lemma {:induction false} PairByNumber(codepoint: bv32, v: bv32)
    requires v <= 0xFFFFF && codepoint == FromOffset(v)
    ensures (codepoint >> 10) + 0xD7C0 <= 0xFFFF && (codepoint & 0x3FF) + 0xDC00 <= 0xFFFF
    ensures LeadUnit(v) == ((codepoint >> 10) + 0xD7C0) as bv16
    ensures TrailUnit(v) == ((codepoint & 0x3FF) + 0xDC00) as bv16
  {}

  // ----- The operations on streams -----

  method DecodeUnitStream(input: UnitSource) returns (ok: bool, codepoint: bv32)
    modifies input
    ensures input.at == old(input.at) + DecodeUnits(input.units, old(input.at)).length
    ensures ok == DecodeUnits(input.units, old(input.at)).ok
    ensures ok ==> codepoint == DecodeUnits(input.units, old(input.at)).codepoint
  {
    codepoint := 0;
    var c := input.Take();
    if IsPlain(c) {
      return true, c as bv32;
    } else if IsLead(c) {
      var d := input.Take();
      return IsTrail(d), FromOffset(Offset(c, d));
    }
    ok := false;
  }

  method EncodeUnitStream(output: UnitSink, codepoint: bv32)
    requires IsScalar(codepoint)
    modifies output
    ensures output.units == old(output.units) + EncodeUnits(codepoint)
  {
    if codepoint <= 0xFFFF {
      output.Put(codepoint as bv16);
    } else {
      var v := codepoint - 0x10000;
      output.Put(LeadUnit(v));
      output.Put(TrailUnit(v));
    }
  }
}
