/** JSON Pointer (RFC 6901): its two representations, and how each is read and written. */
module PointerSyntax {
  import opened Basics
  import opened Decimals
  import opened Utf8

  const SLASH: bv8 := 0x2F
  const TILDE: bv8 := 0x7E
  const HASH: bv8 := 0x23
  const PERCENT: bv8 := 0x25
  const ZERO: bv8 := 0x30
  const ONE: bv8 := 0x31

  const INVALID_INDEX: nat := 0xFFFF_FFFF

  datatype PointerError =
    | TokenMustBeginWithSolidus
    | InvalidEscape
    | InvalidPercentEncoding
    | CharacterMustPercentEncode

  // A reference token: a member name, and the array index it spells, if any.
  datatype Token = Token(name: Bytes, index: nat)

  datatype Pointer = Valid(tokens: seq<Token>) | Invalid(error: PointerError, offset: nat)

  // ----- Indices -----

  predicate AllDigits(name: Bytes) {
    forall i | 0 <= i < |name| :: IsDigit(name[i])
  }

  /** A decimal number without leading zeros. */
  predicate IsNumeral(name: Bytes) {
    |name| > 0 && AllDigits(name) && (|name| > 1 ==> name[0] != ZERO)
  }

  /** The conversion to SizeType: it wraps, and gives up where a step makes the number smaller. */
  function Accumulate(n: nat, digits: Bytes): Option<nat>
    requires AllDigits(digits)
    decreases digits
  {
    if |digits| == 0 then Some(n)
    else
      var m := (n * 10 + Digit(digits[0])) % SIZE_TYPE;
      if m < n then None else Accumulate(m, digits[1..])
  }

  function IndexOf(name: Bytes): nat {
    if IsNumeral(name) && Accumulate(0, name).Some? then Accumulate(0, name).value else INVALID_INDEX
  }

  function TokenOf(name: Bytes): Token {
    Token(name, IndexOf(name))
  }

  // ----- Reading one character of a token -----

  /** Characters other than the unreserved ones of section 2.3 of RFC 3986. */
  predicate NeedPercentEncode(c: bv8) {
    !(0x30 <= c <= 0x39 || 0x41 <= c <= 0x5A || 0x61 <= c <= 0x7A || c == 0x2D || c == 0x2E || c == 0x5F || c == 0x7E)
  }

  /** The octet that a percent triplet stands for. */
  function Triplet(s: Bytes, i: nat): Option<bv8> {
    if i + 3 > |s| || s[i] != PERCENT then None
    else
      var high, low := HexDigit(s[i + 1]), HexDigit(s[i + 2]);
      if high.None? || low.None? then None else Some((high.value << 4) + low.value)
  }

  /** The octets of as many triplets as follow each other. */
  function Octets(s: Bytes, i: nat): Bytes
    decreases |s| - i
  {
    var c := Triplet(s, i);
    if c.None? then [] else [c.value] + Octets(s, i + 3)
  }

  datatype Unit = Good(next: nat, bytes: Bytes) | Bad(error: PointerError, offset: nat)

  /** A character that is no longer percent-encoded: ~0 and ~1 stand for a tilde and a slash. */
  function Unescape(s: Bytes, c: bv8, i: nat): Unit {
    if c != TILDE then Good(i, [c])
    else if i < |s| && s[i] == ZERO then Good(i + 1, [TILDE])
    else if i < |s| && s[i] == ONE then Good(i + 1, [SLASH])
    else Bad(InvalidEscape, i)
  }

  /** A UTF-8 sequence, percent-encoded octet by octet. A single octet is a character like any other. */
  function ReadOctets(s: Bytes, i: nat): Unit {
    var octets := Octets(s, i);
    var d := Decode(octets, 0);
    if !d.ok || d.length > |octets| then Bad(InvalidPercentEncoding, i)
    else if d.length == 1 then Unescape(s, octets[0], i + 3)
    else Good(i + 3 * d.length, octets[..d.length])
  }

  function ReadUnit(s: Bytes, uriFragment: bool, i: nat): Unit
    requires i < |s|
  {
    var c := s[i];
    if uriFragment && c == PERCENT then ReadOctets(s, i)
    else if uriFragment && NeedPercentEncode(c) then Bad(CharacterMustPercentEncode, i)
    else Unescape(s, c, i + 1)
  }

  lemma {:induction false} ReadUnitMovesOn(s: Bytes, uriFragment: bool, i: nat)
    requires i < |s| && ReadUnit(s, uriFragment, i).Good?
    ensures i < ReadUnit(s, uriFragment, i).next <= |s|
    ensures 0 < |ReadUnit(s, uriFragment, i).bytes| <= ReadUnit(s, uriFragment, i).next - i
  {
    OctetsFit(s, i);
    DecodeTakes(Octets(s, i), 0);
  }

  lemma {:induction false} OctetsFit(s: Bytes, i: nat)
    requires i <= |s|
    ensures i + 3 * |Octets(s, i)| <= |s|
    decreases |s| - i
  {
    if Triplet(s, i).Some? {
      OctetsFit(s, i + 3);
    }
  }

  // ----- Reading a token, and a pointer -----

  /** The rest of a token's name, up to a slash or the end. */
  function ReadName(s: Bytes, uriFragment: bool, i: nat, before: Bytes): Unit
    decreases |s| - i
  {
    if i >= |s| || s[i] == SLASH then Good(i, before)
    else
      match ReadUnit(s, uriFragment, i)
      case Bad(error, offset) => Bad(error, offset)
      case Good(next, bytes) =>
        ReadUnitMovesOn(s, uriFragment, i);
        ReadName(s, uriFragment, next, before + bytes)
  }

  lemma {:induction false} ReadNameMovesOn(s: Bytes, uriFragment: bool, i: nat, before: Bytes)
    requires i <= |s| && ReadName(s, uriFragment, i, before).Good?
    ensures
      var next := ReadName(s, uriFragment, i, before).next;
      i <= next <= |s| && (next < |s| ==> s[next] == SLASH)
    decreases |s| - i
  {
    if i < |s| && s[i] != SLASH {
      ReadUnitMovesOn(s, uriFragment, i);
      var unit := ReadUnit(s, uriFragment, i);
      ReadNameMovesOn(s, uriFragment, unit.next, before + unit.bytes);
    }
  }

  /** Tokens, each after its slash. */
  function ReadTokens(s: Bytes, uriFragment: bool, i: nat, before: seq<Token>): Pointer
    decreases |s| - i
  {
    if i >= |s| then Valid(before)
    else
      match ReadName(s, uriFragment, i + 1, [])
      case Bad(error, offset) => Invalid(error, offset)
      case Good(next, name) =>
        ReadNameMovesOn(s, uriFragment, i + 1, []);
        ReadTokens(s, uriFragment, next, before + [TokenOf(name)])
  }

  function Parse(s: Bytes): Pointer {
    var uriFragment := At(s, 0) == HASH;
    var i := if uriFragment then 1 else 0;
    if i != |s| && At(s, i) != SLASH then Invalid(TokenMustBeginWithSolidus, i)
    else ReadTokens(s, uriFragment, i, [])
  }

  // ----- Writing -----

  function HexLetter(n: bv8): bv8 {
    if n < 10 then n + 0x30 else n + 0x37
  }

  function PercentEncode(octets: Bytes): Bytes
    decreases octets
  {
    if |octets| == 0 then []
    else [PERCENT, HexLetter(octets[0] >> 4), HexLetter(octets[0] & 15)] + PercentEncode(octets[1..])
  }

  /** One character of a name, or the sequence of octets that must be percent-encoded together. */
  function WriteUnit(name: Bytes, uriFragment: bool, j: nat): Option<(nat, Bytes)>
    requires j < |name|
  {
    var c := name[j];
    if c == TILDE then Some((1, [TILDE, ZERO]))
    else if c == SLASH then Some((1, [TILDE, ONE]))
    else if uriFragment && NeedPercentEncode(c) then
      var d := Decode(name, j);
      if d.ok then Some((d.length, PercentEncode(Taken(name, j, d.length)))) else None
    else Some((1, [c]))
  }

  function WriteName(name: Bytes, uriFragment: bool, j: nat): Option<Bytes>
    decreases |name| - j
  {
    if j >= |name| then Some([])
    else
      match WriteUnit(name, uriFragment, j)
      case None => None
      case Some((n, bytes)) =>
        WriteUnitMovesOn(name, uriFragment, j);
        var rest := WriteName(name, uriFragment, j + n);
        if rest.None? then None else Some(bytes + rest.value)
  }

  lemma {:induction false} WriteUnitMovesOn(name: Bytes, uriFragment: bool, j: nat)
    requires j < |name| && WriteUnit(name, uriFragment, j).Some?
    ensures 0 < WriteUnit(name, uriFragment, j).value.0 <= |name| - j
  {
    DecodeTakes(name, j);
    if Decode(name, j).ok {
      AcceptedInsideStream(name, j);
    }
  }

  function WriteTokens(tokens: seq<Token>, uriFragment: bool): Option<Bytes>
    decreases tokens
  {
    if |tokens| == 0 then Some([])
    else
      var name, rest := WriteName(tokens[0].name, uriFragment, 0), WriteTokens(tokens[1..], uriFragment);
      if name.None? || rest.None? then None else Some([SLASH] + name.value + rest.value)
  }

  /** A pointer as a string, or as a URI fragment; none where a name is not UTF-8. */
  function Stringify(tokens: seq<Token>, uriFragment: bool): Option<Bytes> {
    var written := WriteTokens(tokens, uriFragment);
    if written.None? then None else Some((if uriFragment then [HASH] else []) + written.value)
  }
}
