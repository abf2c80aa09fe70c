/** UTF-8 (RFC 3629): a decoder driven by range classes, and the encoder it inverts. */
module Utf8 {

  /** A code point that may be encoded: at most 0x10FFFF and no surrogate (section 3). */
  predicate IsScalar(codepoint: bv32) {
    codepoint <= 0x10FFFF && !(0xD800 <= codepoint <= 0xDFFF)
  }

  // ----- Streams of bytes -----

  /** A byte of an input stream; past its end, a stream goes on with NULs. */
  function At(s: seq<bv8>, i: nat): bv8 {
    if i < |s| then s[i] else 0
  }

  function Taken(s: seq<bv8>, from: nat, n: nat): seq<bv8> {
    seq(n, i requires 0 <= i => At(s, from + i))
  }

  lemma {:induction false} TakenInside(s: seq<bv8>, at: nat, n: nat)
    requires at + n <= |s|
    ensures Taken(s, at, n) == s[at..at + n]
  {
    var t := s[at..at + n];
    forall i: nat | i < n ensures Taken(s, at, n)[i] == t[i] {
      assert t[i] == s[at + i] == At(s, at + i);
    }
  }

  class ByteSource {
    const bytes: seq<bv8>
    var at: nat

    constructor (bytes: seq<bv8>)
      ensures this.bytes == bytes && at == 0
    {
      this.bytes := bytes;
      at := 0;
    }

    method Peek() returns (c: bv8)
      ensures c == At(bytes, at)
    {
      c := if at < |bytes| then bytes[at] else 0;
    }

    method Take() returns (c: bv8)
      modifies this
      ensures c == At(bytes, old(at)) && at == old(at) + 1
    {
      c := if at < |bytes| then bytes[at] else 0;
      at := at + 1;
    }
  }

  class ByteSink {
    var bytes: seq<bv8>

    constructor ()
      ensures bytes == []
    {
      bytes := [];
    }

    method Put(c: bv8)
      modifies this
      ensures bytes == old(bytes) + [c]
    {
      bytes := bytes + [c];
    }
  }

  // ----- The encoder -----

  function Encode(codepoint: bv32): (s: seq<bv8>)
    requires codepoint <= 0x10FFFF
  {
    if codepoint <= 0x7F then
      [(codepoint & 0xFF) as bv8]
    else if codepoint <= 0x7FF then
      [(0xC0 | ((codepoint >> 6) & 0xFF)) as bv8, (0x80 | (codepoint & 0x3F)) as bv8]
    else if codepoint <= 0xFFFF then
      [(0xE0 | ((codepoint >> 12) & 0xFF)) as bv8, (0x80 | ((codepoint >> 6) & 0x3F)) as bv8,
       (0x80 | (codepoint & 0x3F)) as bv8]
    else
      [(0xF0 | ((codepoint >> 18) & 0xFF)) as bv8, (0x80 | ((codepoint >> 12) & 0x3F)) as bv8,
       (0x80 | ((codepoint >> 6) & 0x3F)) as bv8, (0x80 | (codepoint & 0x3F)) as bv8]
  }

  // ----- The decoder -----

  /** The class of a byte: of a continuation byte by its sub-range, of a lead byte by how many
      zeros its payload mask starts with. */
  function GetRange(c: bv8): bv8 {
    if c < 0x80 then 0
    else if c < 0x90 then 0x10
    else if c < 0xA0 then 0x40
    else if c < 0xC0 then 0x20
    else if c < 0xC2 then 8
    else if c < 0xE0 then 2
    else if c == 0xE0 then 10
    else if c == 0xED then 4
    else if c < 0xF0 then 3
    else if c == 0xF0 then 11
    else if c < 0xF4 then 6
    else if c == 0xF4 then 5
    else 8
  }

  /** The ranges that the bytes after a lead byte of a class must lie in; none, if no sequence
      starts with the class. */
  function Masks(kind: bv8): seq<bv8> {
    if kind == 2 then [0x70]
    else if kind == 3 then [0x70, 0x70]
    else if kind == 4 then [0x50, 0x70]
    else if kind == 5 then [0x10, 0x70, 0x70]
    else if kind == 6 then [0x70, 0x70, 0x70]
    else if kind == 10 then [0x20, 0x70]
    else if kind == 11 then [0x60, 0x70, 0x70]
    else []
  }

  function Copy(codepoint: bv32, c: bv8): bv32 {
    (codepoint << 6) | ((c as bv32) & 0x3F)
  }

  predicate Trans(c: bv8, mask: bv8) {
    GetRange(c) & mask != 0
  }

  function Payload(c: bv8, kind: bv8): bv32 {
    if kind >= 32 then 0 else (0xFF >> kind) & (c as bv32)
  }

  datatype Decoded<T> = Decoded(ok: bool, codepoint: T, length: nat)

  /** The bytes after the lead byte, each checked against its mask. All are taken, even after one
      has failed. */
  function Follow(s: seq<bv8>, at: nat, codepoint: bv32, ok: bool, masks: seq<bv8>, length: nat): (d: Decoded<bv32>)
    ensures d.length == length + |masks|
    decreases masks
  {
    if |masks| == 0 then Decoded(ok, codepoint, length)
    else
      var c := At(s, at);
      Follow(s, at + 1, Copy(codepoint, c), ok && Trans(c, masks[0]), masks[1..], length + 1)
  }

  function Decode(s: seq<bv8>, at: nat): Decoded<bv32> {
    var c := At(s, at);
    if c & 0x80 == 0 then Decoded(true, c as bv32, 1)
    else
      var kind := GetRange(c);
      Follow(s, at + 1, Payload(c, kind), |Masks(kind)| > 0, Masks(kind), 1)
  }

  // ----- Well-formed sequences (section 4 of RFC 3629) -----

  predicate Tail(c: bv8) { 0x80 <= c <= 0xBF }

  predicate Utf8Two(a: bv8, b: bv8) { 0xC2 <= a <= 0xDF && Tail(b) }

  predicate Utf8Three(a: bv8, b: bv8, c: bv8) {
    || (a == 0xE0 && 0xA0 <= b <= 0xBF && Tail(c))
    || (0xE1 <= a <= 0xEC && Tail(b) && Tail(c))
    || (a == 0xED && 0x80 <= b <= 0x9F && Tail(c))
    || (0xEE <= a <= 0xEF && Tail(b) && Tail(c))
  }

  predicate Utf8Four(a: bv8, b: bv8, c: bv8, d: bv8) {
    || (a == 0xF0 && 0x90 <= b <= 0xBF && Tail(c) && Tail(d))
    || (0xF1 <= a <= 0xF3 && Tail(b) && Tail(c) && Tail(d))
    || (a == 0xF4 && 0x80 <= b <= 0x8F && Tail(c) && Tail(d))
  }

  predicate Utf8Char(s: seq<bv8>) {
    || (|s| == 1 && s[0] <= 0x7F)
    || (|s| == 2 && Utf8Two(s[0], s[1]))
    || (|s| == 3 && Utf8Three(s[0], s[1], s[2]))
    || (|s| == 4 && Utf8Four(s[0], s[1], s[2], s[3]))
  }

  // ----- What the decoder makes of a byte and its masks -----

  lemma {:induction false} FollowOne(s: seq<bv8>, at: nat, p: bv32, m: bv8, length: nat, ok: bool, b: bv8)
    requires b == At(s, at)
    ensures Follow(s, at, p, ok, [m], length) == Decoded(ok && Trans(b, m), Copy(p, b), length + 1)
  {
    assert Follow(s, at + 1, Copy(p, b), ok && Trans(b, m), [], length + 1) == Decoded(ok && Trans(b, m), Copy(p,
        b), length + 1);
  }

  lemma {:induction false} FollowTwo(s: seq<bv8>, at: nat, p: bv32, m: bv8, n: bv8, length: nat, ok: bool, b: bv8, c: bv8)
    requires b == At(s, at) && c == At(s, at + 1)
    ensures Follow(s, at, p, ok, [m, n], length)
         == Decoded(ok && Trans(b, m) && Trans(c, n), Copy(Copy(p, b), c), length + 2)
  {
    assert [m, n][1..] == [n];
    FollowOne(s, at + 1, Copy(p, b), n, length + 1, ok && Trans(b, m), c);
  }

  lemma {:induction false} FollowThree(s: seq<bv8>, at: nat, p: bv32, m: bv8, n: bv8, o: bv8, length: nat, ok: bool,
                                       b: bv8, c: bv8, d: bv8)
    requires b == At(s, at) && c == At(s, at + 1) && d == At(s, at + 2)
    ensures Follow(s, at, p, ok, [m, n, o], length)
         == Decoded(ok && Trans(b, m) && Trans(c, n) && Trans(d, o), Copy(Copy(Copy(p, b), c), d), length + 3)
  {
    assert [m, n, o][1..] == [n, o];
    FollowTwo(s, at + 1, Copy(p, b), n, o, length + 1, ok && Trans(b, m), c, d);
  }

  /** What is left of a code point's bits in a sequence of a given length. */
  function Two(a: bv8, b: bv8): bv32 {
    ((a as bv32 & 0x1F) << 6) | (b as bv32 & 0x3F)
  }

  function Three(a: bv8, b: bv8, c: bv8): bv32 {
    ((a as bv32 & 0xF) << 12) | ((b as bv32 & 0x3F) << 6) | (c as bv32 & 0x3F)
  }

  function Four(a: bv8, b: bv8, c: bv8, d: bv8): bv32 {
    ((a as bv32 & 0x7) << 18) | ((b as bv32 & 0x3F) << 12) | ((c as bv32 & 0x3F) << 6) | (d as bv32 & 0x3F)
  }

  lemma {:induction false} LeadOfTwo(a: bv8, b: bv8)
    requires a & 0x80 != 0
    ensures |Masks(GetRange(a))| == 1 <==> 0xC2 <= a <= 0xDF
    ensures |Masks(GetRange(a))| == 1 ==> (Trans(b, Masks(GetRange(a))[0]) <==> Utf8Two(a, b))
    ensures |Masks(GetRange(a))| == 1 ==> Copy(Payload(a, GetRange(a)), b) == Two(a, b)
  {}

  lemma {:induction false} LeadOfThree(a: bv8, b: bv8, c: bv8)
    requires a & 0x80 != 0 && |Masks(GetRange(a))| == 2
    ensures Trans(b, Masks(GetRange(a))[0]) && Trans(c, Masks(GetRange(a))[1]) <==> Utf8Three(a, b, c)
    ensures Copy(Copy(Payload(a, GetRange(a)), b), c) == Three(a, b, c)
  {}

  lemma {:induction false} LeadOfFour(a: bv8, b: bv8, c: bv8, d: bv8)
    requires a & 0x80 != 0 && |Masks(GetRange(a))| == 3
    ensures Trans(b, Masks(GetRange(a))[0]) && Trans(c, Masks(GetRange(a))[1]) && Trans(d, Masks(GetRange(a))[2])
       <==> Utf8Four(a, b, c, d)
    ensures Copy(Copy(Copy(Payload(a, GetRange(a)), b), c), d) == Four(a, b, c, d)
  {}

  // ----- The decoder accepts exactly the well-formed sequences -----

  /** The code point of a well-formed sequence. */
  function Value(s: seq<bv8>): bv32
    requires Utf8Char(s)
  {
    if |s| == 1 then s[0] as bv32
    else if |s| == 2 then Two(s[0], s[1])
    else if |s| == 3 then Three(s[0], s[1], s[2])
    else Four(s[0], s[1], s[2], s[3])
  }

  /** How many bytes the decoder takes, which it knows from the first. */
  function Span(lead: bv8): nat {
    if lead & 0x80 == 0 then 1 else 1 + |Masks(GetRange(lead))|
  }

  lemma {:induction false} DecodeTakes(s: seq<bv8>, at: nat)
    ensures Decode(s, at).length == Span(At(s, at))
  {}

  lemma {:induction false} LeadByte(a: bv8)
    ensures a & 0x80 == 0 <==> a <= 0x7F
  {}

  /** Accepted are exactly the sequences of section 4 of RFC 3629, with the code point they stand for. */
  lemma {:induction false} DecodeAcceptsWellFormed(s: seq<bv8>, at: nat)
    ensures
      var d := Decode(s, at);
      var taken := Taken(s, at, d.length);
      && (d.ok <==> Utf8Char(taken))
      && (d.ok ==> d.codepoint == Value(taken))
  {
    var a := At(s, at);
    var n := |Masks(GetRange(a))|;
    LeadByte(a);
    if a & 0x80 == 0 || n == 0 {
      assert Taken(s, at, 1) == [a];
    } else if n == 1 {
      DecodeTwo(s, at, a, At(s, at + 1), GetRange(a));
      assert Taken(s, at, 2) == [a, At(s, at + 1)];
    } else if n == 2 {
      DecodeThree(s, at, a, At(s, at + 1), At(s, at + 2), GetRange(a));
      assert Taken(s, at, 3) == [a, At(s, at + 1), At(s, at + 2)];
    } else {
      DecodeFour(s, at, a, At(s, at + 1), At(s, at + 2), At(s, at + 3), GetRange(a));
      assert Taken(s, at, 4) == [a, At(s, at + 1), At(s, at + 2), At(s, at + 3)];
    }
  }

  lemma {:induction false} DecodeTwo(s: seq<bv8>, at: nat, a: bv8, b: bv8, kind: bv8)
    requires a == At(s, at) && b == At(s, at + 1) && a & 0x80 != 0
    requires kind == GetRange(a) && |Masks(kind)| == 1
    ensures Decode(s, at) == Decoded(Utf8Two(a, b), Two(a, b), 2)
  {
    var masks := Masks(kind);
    assert masks == [masks[0]];
    FollowOne(s, at + 1, Payload(a, kind), masks[0], 1, true, b);
    LeadOfTwo(a, b);
  }

  lemma {:induction false} DecodeThree(s: seq<bv8>, at: nat, a: bv8, b: bv8, c: bv8, kind: bv8)
    requires a == At(s, at) && b == At(s, at + 1) && c == At(s, at + 2) && a & 0x80 != 0
    requires kind == GetRange(a) && |Masks(kind)| == 2
    ensures Decode(s, at) == Decoded(Utf8Three(a, b, c), Three(a, b, c), 3)
  {
    var masks := Masks(kind);
    assert masks == [masks[0], masks[1]];
    FollowTwo(s, at + 1, Payload(a, kind), masks[0], masks[1], 1, true, b, c);
    LeadOfThree(a, b, c);
  }

  lemma {:induction false} DecodeFour(s: seq<bv8>, at: nat, a: bv8, b: bv8, c: bv8, d: bv8, kind: bv8)
    requires a == At(s, at) && b == At(s, at + 1) && c == At(s, at + 2) && d == At(s, at + 3) && a & 0x80 != 0
    requires kind == GetRange(a) && |Masks(kind)| == 3
    ensures Decode(s, at) == Decoded(Utf8Four(a, b, c, d), Four(a, b, c, d), 4)
  {
    var masks := Masks(kind);
    assert masks == [masks[0], masks[1], masks[2]];
    FollowThree(s, at + 1, Payload(a, kind), masks[0], masks[1], masks[2], 1, true, b, c, d);
    LeadOfFour(a, b, c, d);
  }

  /** A well-formed sequence is what its code point encodes to. */
  lemma {:induction false} WellFormedIsEncoding(s: seq<bv8>)
    requires Utf8Char(s)
    ensures IsScalar(Value(s)) && Encode(Value(s)) == s
    ensures |s| == Span(s[0])
  {
    if |s| == 1 {
      OneEncodes(s[0]);
      assert s == [s[0]];
    } else if |s| == 2 {
      TwoEncodes(s[0], s[1]);
      assert s == [s[0], s[1]];
    } else if |s| == 3 {
      ThreeEncodes(s[0], s[1], s[2]);
      assert s == [s[0], s[1], s[2]];
    } else {
      FourEncodes(s[0], s[1], s[2], s[3]);
      assert s == [s[0], s[1], s[2], s[3]];
    }
  }

  lemma {:induction false} OneEncodes(a: bv8)
    requires a <= 0x7F
    ensures Encode(a as bv32) == [a] && Span(a) == 1
  {}

  lemma {:induction false} TwoEncodes(a: bv8, b: bv8)
    requires Utf8Two(a, b)
    ensures 0x80 <= Two(a, b) <= 0x7FF && Encode(Two(a, b)) == [a, b] && Span(a) == 2
  {}

  lemma {:induction false} ThreeEncodes(a: bv8, b: bv8, c: bv8)
    requires Utf8Three(a, b, c)
    ensures 0x800 <= Three(a, b, c) <= 0xFFFF && IsScalar(Three(a, b, c))
    ensures Encode(Three(a, b, c)) == [a, b, c] && Span(a) == 3
  {
    ThreeRange(a, b, c, Three(a, b, c));
    ThreeMarks(a, b, c);
    ThreeBits(a, b, c, Three(a, b, c));
  }

  lemma {:induction false} ThreeRange(a: bv8, b: bv8, c: bv8, x: bv32)
    requires Utf8Three(a, b, c) && x == Three(a, b, c)
    ensures 0x800 <= x <= 0xFFFF && IsScalar(x)
  {}

  predicate Marked(c: bv8, mask: bv8, mark: bv8) { c & mask == mark }

  lemma {:induction false} ThreeMarks(a: bv8, b: bv8, c: bv8)
    requires Utf8Three(a, b, c)
    ensures Marked(a, 0xF0, 0xE0) && Marked(b, 0xC0, 0x80) && Marked(c, 0xC0, 0x80) && Span(a) == 3
  {}

  lemma {:induction false} ThreeBits(a: bv8, b: bv8, c: bv8, x: bv32)
    requires Marked(a, 0xF0, 0xE0) && Marked(b, 0xC0, 0x80) && Marked(c, 0xC0, 0x80) && x == Three(a, b, c)
    ensures (0xE0 | ((x >> 12) & 0xFF)) as bv8 == a
    ensures (0x80 | ((x >> 6) & 0x3F)) as bv8 == b
    ensures (0x80 | (x & 0x3F)) as bv8 == c
  {}

  lemma {:induction false} FourEncodes(a: bv8, b: bv8, c: bv8, d: bv8)
    requires Utf8Four(a, b, c, d)
    ensures 0x10000 <= Four(a, b, c, d) <= 0x10FFFF
    ensures Encode(Four(a, b, c, d)) == [a, b, c, d] && Span(a) == 4
  {
    FourRange(a, b, c, d, Four(a, b, c, d));
    FourMarks(a, b, c, d);
    FourBits(a, b, c, d, Four(a, b, c, d));
  }

  lemma {:induction false} FourRange(a: bv8, b: bv8, c: bv8, d: bv8, x: bv32)
    requires Utf8Four(a, b, c, d) && x == Four(a, b, c, d)
    ensures 0x10000 <= x <= 0x10FFFF
  {}

  lemma {:induction false} FourMarks(a: bv8, b: bv8, c: bv8, d: bv8)
    requires Utf8Four(a, b, c, d)
    ensures Marked(a, 0xF8, 0xF0) && Marked(b, 0xC0, 0x80) && Marked(c, 0xC0, 0x80) && Marked(d, 0xC0, 0x80) && Span(a) == 4
  {}

  lemma {:induction false} FourBits(a: bv8, b: bv8, c: bv8, d: bv8, x: bv32)
    requires Marked(a, 0xF8, 0xF0) && Marked(b, 0xC0, 0x80) && Marked(c, 0xC0, 0x80) && Marked(d, 0xC0, 0x80)
    requires x == Four(a, b, c, d)
    ensures (0xF0 | ((x >> 18) & 0xFF)) as bv8 == a
    ensures (0x80 | ((x >> 12) & 0x3F)) as bv8 == b
    ensures (0x80 | ((x >> 6) & 0x3F)) as bv8 == c
    ensures (0x80 | (x & 0x3F)) as bv8 == d
  {}

  /** An encoding is well formed and stands for its code point. */
  lemma {:induction false} EncodingIsWellFormed(codepoint: bv32)
    requires IsScalar(codepoint)
    ensures Utf8Char(Encode(codepoint)) && Value(Encode(codepoint)) == codepoint
  {
    var s := Encode(codepoint);
    if codepoint <= 0x7FF {
    } else if codepoint <= 0xFFFF {
      EncodingOfThree(codepoint, s[0], s[1], s[2]);
    } else {
      EncodingOfFour(codepoint, s[0], s[1], s[2], s[3]);
    }
  }

  lemma {:induction false} EncodingOfThree(x: bv32, a: bv8, b: bv8, c: bv8)
    requires 0x800 <= x <= 0xFFFF && IsScalar(x)
    requires a == (0xE0 | ((x >> 12) & 0xFF)) as bv8
    requires b == (0x80 | ((x >> 6) & 0x3F)) as bv8
    requires c == (0x80 | (x & 0x3F)) as bv8
    ensures Utf8Three(a, b, c) && Three(a, b, c) == x
  {}

  lemma {:induction false} EncodingOfFour(x: bv32, a: bv8, b: bv8, c: bv8, d: bv8)
    requires 0x10000 <= x <= 0x10FFFF
    requires a == (0xF0 | ((x >> 18) & 0xFF)) as bv8
    requires b == (0x80 | ((x >> 12) & 0x3F)) as bv8
    requires c == (0x80 | ((x >> 6) & 0x3F)) as bv8
    requires d == (0x80 | (x & 0x3F)) as bv8
    ensures Utf8Four(a, b, c, d) && Four(a, b, c, d) == x
  {}

  // ----- Decoder and encoder are mutually inverse -----

  /** Whatever the decoder accepts is the encoding of its result: no overlong form, no surrogate,
      nothing above 0x10FFFF. */
  lemma {:induction false} AcceptedIsEncoding(s: seq<bv8>, at: nat)
    requires Decode(s, at).ok
    ensures IsScalar(Decode(s, at).codepoint)
    ensures Encode(Decode(s, at).codepoint) == Taken(s, at, Decode(s, at).length)
  {
    DecodeAcceptsWellFormed(s, at);
    WellFormedIsEncoding(Taken(s, at, Decode(s, at).length));
  }

  /** Wherever the encoding of a code point stands in a stream, the decoder reads that code point. */
  lemma {:induction false} DecodeOfEncoding(s: seq<bv8>, at: nat, codepoint: bv32)
    requires IsScalar(codepoint)
    requires Taken(s, at, |Encode(codepoint)|) == Encode(codepoint)
    ensures Decode(s, at) == Decoded(true, codepoint, |Encode(codepoint)|)
  {
    EncodingIsWellFormed(codepoint);
    WellFormedIsEncoding(Encode(codepoint));
    assert At(s, at) == Taken(s, at, |Encode(codepoint)|)[0];
    DecodeTakes(s, at);
    DecodeAcceptsWellFormed(s, at);
  }

  /** Accepted is a stream that goes on with the encoding of some code point, and no other. */
  lemma {:induction false} AcceptedExactlyEncodings(s: seq<bv8>, at: nat)
    ensures Decode(s, at).ok <==> exists codepoint | IsScalar(codepoint) :: BeginsWith(s, at, codepoint)
  {
    if Decode(s, at).ok {
      AcceptedIsEncoding(s, at);
      assert BeginsWith(s, at, Decode(s, at).codepoint);
    }
    forall codepoint | IsScalar(codepoint) && BeginsWith(s, at, codepoint) ensures Decode(s, at).ok {
      DecodeOfEncoding(s, at, codepoint);
    }
  }

  predicate BeginsWith(s: seq<bv8>, at: nat, codepoint: bv32)
    requires IsScalar(codepoint)
  {
    Taken(s, at, |Encode(codepoint)|) == Encode(codepoint)
  }

  /** An accepted sequence never reaches beyond the end of its stream. */
  lemma {:induction false} AcceptedInsideStream(s: seq<bv8>, at: nat)
    requires at < |s| && Decode(s, at).ok
    ensures at + Decode(s, at).length <= |s|
  {
    var n := Decode(s, at).length;
    DecodeAcceptsWellFormed(s, at);
    if at + n > |s| {
      assert At(s, at + (n - 1)) == 0 && Taken(s, at, n)[n - 1] == 0;
      LastByteIsNotNul(Taken(s, at, n));
    }
  }

  lemma {:induction false} LastByteIsNotNul(s: seq<bv8>)
    requires Utf8Char(s) && |s| > 1
    ensures s[|s| - 1] != 0
  {}

  // ----- The operations on streams -----

  /** Takes one byte more: its six bits enter the code point, and its range is checked. */
  method CopyAndTrans(input: ByteSource, codepoint: bv32, ok: bool, mask: bv8) returns (codepoint': bv32, ok': bool)
    modifies input
    ensures input.at == old(input.at) + 1
    ensures codepoint' == Copy(codepoint, At(input.bytes, old(input.at)))
    ensures ok' == (ok && Trans(At(input.bytes, old(input.at)), mask))
  {
    var c := input.Take();
    codepoint' := Copy(codepoint, c);
    ok' := ok && Trans(c, mask);
  }

  method DecodeStream(input: ByteSource) returns (ok: bool, codepoint: bv32)
    modifies input
    ensures input.at == old(input.at) + Decode(input.bytes, old(input.at)).length
    ensures ok == Decode(input.bytes, old(input.at)).ok
    ensures codepoint == Decode(input.bytes, old(input.at)).codepoint
  {
    ghost var s, at := input.bytes, input.at;
    var c := input.Take();
    if c & 0x80 == 0 {
      return true, c as bv32;
    }
    var kind := GetRange(c);
    codepoint := Payload(c, kind);
    ok := true;
    ghost var p := codepoint;
    if kind == 2 {
      codepoint, ok := CopyAndTrans(input, codepoint, ok, 0x70);
      FollowOne(s, at + 1, p, 0x70, 1, true, At(s, at + 1));
    } else if kind == 3 || kind == 4 || kind == 10 {
      codepoint, ok := CopyAndTrans(input, codepoint, ok, if kind == 3 then 0x70 else if kind == 4 then 0x50 else 0x20);
      codepoint, ok := CopyAndTrans(input, codepoint, ok, 0x70);
      FollowTwo(s, at + 1, p, Masks(kind)[0], 0x70, 1, true, At(s, at + 1), At(s, at + 2));
    } else if kind == 5 || kind == 6 || kind == 11 {
      codepoint, ok := CopyAndTrans(input, codepoint, ok, if kind == 5 then 0x10 else if kind == 6 then 0x70 else 0x60);
      codepoint, ok := CopyAndTrans(input, codepoint, ok, 0x70);
      codepoint, ok := CopyAndTrans(input, codepoint, ok, 0x70);
      FollowThree(s, at + 1, p, Masks(kind)[0], 0x70, 0x70, 1, true, At(s, at + 1), At(s, at + 2), At(s, at + 3));
    } else {
      ok := false;
    }
  }

  method EncodeStream(output: ByteSink, codepoint: bv32)
    requires codepoint <= 0x10FFFF
    modifies output
    ensures output.bytes == old(output.bytes) + Encode(codepoint)
  {
    if codepoint <= 0x7F {
      output.Put((codepoint & 0xFF) as bv8);
    } else if codepoint <= 0x7FF {
      output.Put((0xC0 | ((codepoint >> 6) & 0xFF)) as bv8);
      output.Put((0x80 | (codepoint & 0x3F)) as bv8);
    } else if codepoint <= 0xFFFF {
      output.Put((0xE0 | ((codepoint >> 12) & 0xFF)) as bv8);
      output.Put((0x80 | ((codepoint >> 6) & 0x3F)) as bv8);
      output.Put((0x80 | (codepoint & 0x3F)) as bv8);
    } else {
      output.Put((0xF0 | ((codepoint >> 18) & 0xFF)) as bv8);
      output.Put((0x80 | ((codepoint >> 12) & 0x3F)) as bv8);
      output.Put((0x80 | ((codepoint >> 6) & 0x3F)) as bv8);
      output.Put((0x80 | (codepoint & 0x3F)) as bv8);
    }
  }

  method ReplicateAndTrans(input: ByteSource, output: ByteSink, ok: bool, mask: bv8, ghost start: nat,
        ghost before: seq<bv8>)
    returns (ok': bool)
    requires start <= input.at && output.bytes == before + Taken(input.bytes, start, input.at - start)
    modifies input, output
    ensures input.at == old(input.at) + 1
    ensures output.bytes == before + Taken(input.bytes, start, input.at - start)
    ensures ok' == (ok && Trans(At(input.bytes, old(input.at)), mask))
  {
    OneMoreTaken(input.bytes, start, input.at - start, before);
    var c := input.Take();
    output.Put(c);
    ok' := ok && Trans(c, mask);
  }

  lemma {:induction false} OneMoreTaken(s: seq<bv8>, start: nat, n: nat, before: seq<bv8>)
    ensures before + Taken(s, start, n) + [At(s, start + n)] == before + Taken(s, start, n + 1)
  {}

  /** Validation accepts what decoding accepts, takes as many bytes, and copies them unchanged. */
  method Validate(input: ByteSource, output: ByteSink) returns (ok: bool)
    modifies input, output
    ensures ok == Decode(input.bytes, old(input.at)).ok
    ensures input.at == old(input.at) + Decode(input.bytes, old(input.at)).length
    ensures output.bytes == old(output.bytes) + Taken(input.bytes, old(input.at), input.at - old(input.at))
  {
    ghost var s, at, before := input.bytes, input.at, output.bytes;
    assert Taken(s, at, 0) == [];
    OneMoreTaken(s, at, 0, before);
    var c := input.Take();
    output.Put(c);
    if c & 0x80 == 0 {
      return true;
    }
    var kind := GetRange(c);
    ok := true;
    if kind == 2 {
      ok := ReplicateAndTrans(input, output, ok, 0x70, at, before);
      FollowOne(s, at + 1, Payload(c, kind), 0x70, 1, true, At(s, at + 1));
    } else if kind == 3 || kind == 4 || kind == 10 {
      ok := ReplicateAndTrans(input, output, ok, if kind == 3 then 0x70 else if kind == 4 then 0x50 else 0x20, at, before);
      ok := ReplicateAndTrans(input, output, ok, 0x70, at, before);
      FollowTwo(s, at + 1, Payload(c, kind), Masks(kind)[0], 0x70, 1, true, At(s, at + 1), At(s, at + 2));
    } else if kind == 5 || kind == 6 || kind == 11 {
      ok := ReplicateAndTrans(input, output, ok, if kind == 5 then 0x10 else if kind == 6 then 0x70 else 0x60, at, before);
      ok := ReplicateAndTrans(input, output, ok, 0x70, at, before);
      ok := ReplicateAndTrans(input, output, ok, 0x70, at, before);
      FollowThree(s, at + 1, Payload(c, kind), Masks(kind)[0], 0x70, 0x70, 1, true, At(s, at + 1), At(s, at + 2),
          At(s, at + 3));
    } else {
      ok := false;
    }
  }
}
