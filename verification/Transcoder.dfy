/** Transcoding a text from one encoding to another and back. Everything here holds of any two
    encodings whose decoder and encoder are mutually inverse; UTF-8 and UTF-16 are. */
module Transcoder {
  import opened Basics
  import opened Utf8
  import opened Utf16

  // An encoding of code points C in units U.
  datatype Encoding<!C(!new), !U(!new)> = Encoding(
    valid: C -> bool, encode: C -> seq<U>, decode: (seq<U>, int) -> Decoded<C>)

  // ----- The laws, each at a point -----

  ghost predicate AcceptsEncodingAt<C(!new), U(!new)>(e: Encoding<C, U>, s: seq<U>, at: nat) {
    var d := e.decode(s, at);
    d.ok ==>
      && e.valid(d.codepoint)
      && 0 < d.length <= |s| - at
      && s[at..at + d.length] == e.encode(d.codepoint)
  }

  ghost predicate DecodesEncodingAt<C(!new), U(!new)>(e: Encoding<C, U>, s: seq<U>, at: nat, c: C) {
    e.valid(c) ==>
      var n := |e.encode(c)|;
      0 < n && (at + n <= |s| && s[at..at + n] == e.encode(c) ==> e.decode(s, at) == Decoded(true, c, n))
  }

  ghost predicate Inverse<C(!new), U(!new)>(e: Encoding<C, U>) {
    && (forall s: seq<U>, at: nat | at < |s| :: AcceptsEncodingAt(e, s, at))
    && (forall s: seq<U>, at: nat, c: C :: DecodesEncodingAt(e, s, at, c))
  }

  // ----- Texts -----

  ghost predicate ValidText<C(!new), U(!new)>(e: Encoding<C, U>, text: seq<C>) {
    forall i | 0 <= i < |text| :: e.valid(text[i])
  }

  function EncodeText<C(!new), U(!new)>(e: Encoding<C, U>, text: seq<C>): seq<U>
    decreases text
  {
    if |text| == 0 then [] else e.encode(text[0]) + EncodeText(e, text[1..])
  }

  /** One code point after another, until the input ends or one is refused. */
  function Transcoded<C(!new), U(!new), V(!new)>(e: Encoding<C, U>, f: Encoding<C, V>, s: seq<U>, at: nat): Option<seq<V>>
    decreases |s| - at
  {
    if at >= |s| then Some([])
    else
      var d := e.decode(s, at);
      if !d.ok || d.length == 0 then None
      else
        var rest := Transcoded(e, f, s, at + d.length);
        if rest.None? then None else Some(f.encode(d.codepoint) + rest.value)
  }

  /** What is transcoded successfully is the encoding of a text. */
  lemma {:induction false} TranscodedText<C(!new), U(!new), V(!new)>(e: Encoding<C, U>, f: Encoding<C, V>,
        s: seq<U>, at: nat)
    returns (text: seq<C>)
    requires Inverse(e) && at <= |s| && Transcoded(e, f, s, at).Some?
    ensures ValidText(e, text)
    ensures s[at..] == EncodeText(e, text) && Transcoded(e, f, s, at).value == EncodeText(f, text)
    decreases |s| - at
  {
    if at >= |s| {
      text := [];
    } else {
      assert AcceptsEncodingAt(e, s, at);
      var d := e.decode(s, at);
      var rest := TranscodedText(e, f, s, at + d.length);
      text := [d.codepoint] + rest;
      assert text[1..] == rest;
      assert s[at..] == s[at..at + d.length] + s[at + d.length..];
    }
  }

  /** The encoding of a text is transcoded to its other encoding. */
  lemma {:induction false} TextTranscoded<C(!new), U(!new), V(!new)>(e: Encoding<C, U>, f: Encoding<C, V>,
        s: seq<U>, at: nat, text: seq<C>)
    requires Inverse(e) && ValidText(e, text)
    requires at <= |s| && s[at..] == EncodeText(e, text)
    ensures Transcoded(e, f, s, at) == Some(EncodeText(f, text))
    decreases text
  {
    if |text| > 0 {
      var first, rest := e.encode(text[0]), EncodeText(e, text[1..]);
      assert DecodesEncodingAt(e, s, at, text[0]);
      SplitPrefix(s, at, first, rest);
      TextTranscoded(e, f, s, at + |first|, text[1..]);
    }
  }

  lemma {:induction false} SplitPrefix<U>(s: seq<U>, at: nat, first: seq<U>, rest: seq<U>)
    requires at <= |s| && s[at..] == first + rest
    ensures at + |first| <= |s| && s[at..at + |first|] == first && s[at + |first|..] == rest
  {
    assert s[at..][..|first|] == first;
    assert s[at..][|first|..] == rest;
  }

  /** Transcoding and transcoding back is the identity. */
  lemma {:induction false} RoundTrip<C(!new), U(!new), V(!new)>(e: Encoding<C, U>, f: Encoding<C, V>, s: seq<U>)
    requires Inverse(e) && Inverse(f) && e.valid == f.valid
    requires Transcoded(e, f, s, 0).Some?
    ensures Transcoded(f, e, Transcoded(e, f, s, 0).value, 0) == Some(s)
  {
    var text := TranscodedText(e, f, s, 0);
    var t := EncodeText(f, text);
    assert t[0..] == t && s[0..] == s;
    TextTranscoded(f, e, t, 0, text);
  }

  // ----- UTF-8 and UTF-16 -----

  function EncodeBytes(codepoint: bv32): seq<bv8> {
    if IsScalar(codepoint) then Encode(codepoint) else []
  }

  function EncodeWords(codepoint: bv32): seq<bv16> {
    if IsScalar(codepoint) then EncodeUnits(codepoint) else []
  }

  function DecodeBytes(s: seq<bv8>, at: int): Decoded<bv32> {
    if at >= 0 then Decode(s, at) else Decoded(false, 0, 1)
  }

  function DecodeWords(s: seq<bv16>, at: int): Decoded<bv32> {
    if at >= 0 then DecodeUnits(s, at) else Decoded(false, 0, 1)
  }

  const UTF8: Encoding<bv32, bv8> := Encoding(IsScalar, EncodeBytes, DecodeBytes)
  const UTF16: Encoding<bv32, bv16> := Encoding(IsScalar, EncodeWords, DecodeWords)

  lemma {:induction false} EncodeIsNotEmpty(codepoint: bv32)
    requires IsScalar(codepoint)
    ensures 0 < |Encode(codepoint)|
  {}

  lemma {:induction false} EncodeUnitsIsNotEmpty(codepoint: bv32)
    requires IsScalar(codepoint)
    ensures 0 < |EncodeUnits(codepoint)|
  {}

  lemma {:induction false} UnitsTakenInside(s: seq<bv16>, at: nat, n: nat)
    requires at + n <= |s|
    ensures UnitsTaken(s, at, n) == s[at..at + n]
  {
    var t := s[at..at + n];
    forall i: nat | i < n ensures UnitsTaken(s, at, n)[i] == t[i] {
      assert t[i] == s[at + i] == UnitAt(s, at + i);
    }
  }

  lemma {:induction false} BytesAccepted(s: seq<bv8>, at: nat)
    requires at < |s|
    ensures AcceptsEncodingAt(UTF8, s, at)
  {
    var d := Decode(s, at);
    if d.ok {
      AcceptedIsEncoding(s, at);
      AcceptedInsideStream(s, at);
      TakenInside(s, at, d.length);
      EncodeIsNotEmpty(d.codepoint);
    }
  }

  lemma {:induction false} BytesDecoded(s: seq<bv8>, at: nat, codepoint: bv32)
    ensures DecodesEncodingAt(UTF8, s, at, codepoint)
  {
    if IsScalar(codepoint) {
      var n := |Encode(codepoint)|;
      EncodeIsNotEmpty(codepoint);
      if at + n <= |s| && s[at..at + n] == Encode(codepoint) {
        TakenInside(s, at, n);
        DecodeOfEncoding(s, at, codepoint);
      }
    }
  }

  lemma {:induction false} Utf8IsInverse()
    ensures Inverse(UTF8)
  {
    forall s: seq<bv8>, at: nat | at < |s| ensures AcceptsEncodingAt(UTF8, s, at) { BytesAccepted(s, at); }
    forall s: seq<bv8>, at: nat, c: bv32 ensures DecodesEncodingAt(UTF8, s, at, c) { BytesDecoded(s, at, c); }
  }

  lemma {:induction false} UnitsAccepted(s: seq<bv16>, at: nat)
    requires at < |s|
    ensures AcceptsEncodingAt(UTF16, s, at)
  {
    var d := DecodeUnits(s, at);
    if d.ok {
      AcceptedUnitsAreEncoding(s, at);
      AcceptedUnitsInside(s, at);
      UnitsTakenInside(s, at, d.length);
      EncodeUnitsIsNotEmpty(d.codepoint);
    }
  }

  /** The NUL past the end is no low surrogate. */
  lemma {:induction false} AcceptedUnitsInside(s: seq<bv16>, at: nat)
    requires at < |s| && DecodeUnits(s, at).ok
    ensures at + DecodeUnits(s, at).length <= |s|
  {}

  lemma {:induction false} UnitsDecoded(s: seq<bv16>, at: nat, codepoint: bv32)
    ensures DecodesEncodingAt(UTF16, s, at, codepoint)
  {
    if IsScalar(codepoint) {
      var units := EncodeWords(codepoint);
      EncodeUnitsIsNotEmpty(codepoint);
      if at + |units| <= |s| && s[at..at + |units|] == units {
        DecodeOfWords(s, at, codepoint, units);
      }
    }
  }

  lemma {:induction false} DecodeOfWords(s: seq<bv16>, at: nat, codepoint: bv32, units: seq<bv16>)
    requires IsScalar(codepoint) && units == EncodeUnits(codepoint)
    requires at + |units| <= |s| && s[at..at + |units|] == units
    ensures DecodeWords(s, at) == Decoded(true, codepoint, |units|)
  {
    UnitsTakenInside(s, at, |units|);
    DecodeOfUnits(s, at, codepoint);
  }

  lemma {:induction false} Utf16IsInverse()
    ensures Inverse(UTF16)
  {
    forall s: seq<bv16>, at: nat | at < |s| ensures AcceptsEncodingAt(UTF16, s, at) { UnitsAccepted(s, at); }
    forall s: seq<bv16>, at: nat, c: bv32 ensures DecodesEncodingAt(UTF16, s, at, c) { UnitsDecoded(s, at, c); }
  }

  /** UTF-8 to UTF-16 and back. */
  lemma {:induction false} Utf8RoundTrip(s: seq<bv8>)
    requires Transcoded(UTF8, UTF16, s, 0).Some?
    ensures Transcoded(UTF16, UTF8, Transcoded(UTF8, UTF16, s, 0).value, 0) == Some(s)
  {
    Utf8IsInverse();
    Utf16IsInverse();
    RoundTrip(UTF8, UTF16, s);
  }

  /** UTF-16 to UTF-8 and back. */
  lemma {:induction false} Utf16RoundTrip(s: seq<bv16>)
    requires Transcoded(UTF16, UTF8, s, 0).Some?
    ensures Transcoded(UTF8, UTF16, Transcoded(UTF16, UTF8, s, 0).value, 0) == Some(s)
  {
    Utf8IsInverse();
    Utf16IsInverse();
    RoundTrip(UTF16, UTF8, s);
  }

  /** Transcoding from UTF-8 succeeds on the encoding of every text of scalar values. */
  lemma {:induction false} EveryTextTranscodes(text: seq<bv32>)
    requires forall i | 0 <= i < |text| :: IsScalar(text[i])
    ensures Transcoded(UTF8, UTF16, EncodeText(UTF8, text), 0) == Some(EncodeText(UTF16, text))
    ensures Transcoded(UTF16, UTF8, EncodeText(UTF16, text), 0) == Some(EncodeText(UTF8, text))
  {
    Utf8IsInverse();
    Utf16IsInverse();
    TextTranscoded(UTF8, UTF16, EncodeText(UTF8, text), 0, text);
    TextTranscoded(UTF16, UTF8, EncodeText(UTF16, text), 0, text);
  }

  // ----- Over streams -----

  /** One code point from one stream to the other. */
  method Transcode(input: ByteSource, output: UnitSink) returns (ok: bool)
    modifies input, output
    ensures input.at == old(input.at) + Decode(input.bytes, old(input.at)).length
    ensures ok == Decode(input.bytes, old(input.at)).ok
    ensures output.units == old(output.units)
                          + if ok then EncodeWords(Decode(input.bytes, old(input.at)).codepoint) else []
  {
    ghost var at := input.at;
    var codepoint;
    ok, codepoint := DecodeStream(input);
    if !ok {
      return false;
    }
    AcceptedIsEncoding(input.bytes, at);
    EncodeUnitStream(output, codepoint);
  }
}
