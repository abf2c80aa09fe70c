/** What a pointer's text stands for and what makes it invalid, byte by byte, in both representations. */
module PointerFaults {
  import opened Basics
  import opened Decimals
  import opened Utf8
  import opened PointerSyntax

  // ----- One character of a name -----

  /** The characters that need no percent-encoding (section 2.3 of RFC 3986). */
  predicate Unreserved(c: bv8) {
    || 0x41 <= c <= 0x5A || 0x61 <= c <= 0x7A || 0x30 <= c <= 0x39
    || c == 0x2D || c == 0x2E || c == 0x5F || c == 0x7E
  }

  predicate IsHex(c: bv8) {
    0x30 <= c <= 0x39 || 0x41 <= c <= 0x46 || 0x61 <= c <= 0x66
  }

  function Nibble(c: bv8): bv8 {
    if c <= 0x39 then c - 0x30 else if c <= 0x46 then c - 0x41 + 10 else c - 0x61 + 10
  }

  predicate IsTriplet(s: Bytes, i: nat) {
    i + 3 <= |s| && s[i] == 0x25 && IsHex(s[i + 1]) && IsHex(s[i + 2])
  }

  function OctetAt(s: Bytes, i: nat): bv8
    requires i + 3 <= |s|
  {
    16 * Nibble(s[i + 1]) + Nibble(s[i + 2])
  }

  /** Octets are percent-encoded from a place on. */
  predicate Encoded(s: Bytes, i: nat, octets: Bytes)
    decreases octets
  {
    |octets| == 0 || (IsTriplet(s, i) && octets[0] == OctetAt(s, i) && Encoded(s, i + 3, octets[1..]))
  }

  /** Behind a tilde, 0 is for a tilde and 1 for a slash. */
  predicate BehindTilde(s: Bytes, i: nat, u: Unit) {
    if i < |s| && s[i] == 0x30 then u == Good(i + 1, [0x7E])
    else if i < |s| && s[i] == 0x31 then u == Good(i + 1, [0x2F])
    else u == Bad(InvalidEscape, i)
  }

  /** A UTF-8 sequence stands percent-encoded at a place. */
  ghost predicate CharStands(s: Bytes, i: nat) {
    exists octets :: Utf8Char(octets) && Encoded(s, i, octets)
  }

  /** What the character at a place is taken for. In a fragment, reserved characters must be encoded. */
  ghost predicate UnitIs(s: Bytes, uriFragment: bool, i: nat, u: Unit)
    requires i < |s|
  {
    if uriFragment && s[i] == 0x25 then
      || (u == Bad(InvalidPercentEncoding, i) && !CharStands(s, i))
      || (exists octets :: EncodedUnit(s, i, octets, u))
    else if uriFragment && !Unreserved(s[i]) then u == Bad(CharacterMustPercentEncode, i)
    else if s[i] == 0x7E then BehindTilde(s, i + 1, u)
    else u == Good(i + 1, [s[i]])
  }

  predicate EncodedUnit(s: Bytes, i: nat, octets: Bytes, u: Unit) {
    && Utf8Char(octets) && Encoded(s, i, octets)
    && if octets == [0x7E] then BehindTilde(s, i + 3, u) else u == Good(i + 3 * |octets|, octets)
  }

  // ----- Reading it -----

  lemma {:induction false} NibbleIsDigit(c: bv8)
    ensures IsHex(c) <==> HexDigit(c).Some?
    ensures IsHex(c) ==> HexDigit(c) == Some(Nibble(c)) && Nibble(c) < 16
  {}

  lemma {:induction false} NibblesJoin(high: bv8, low: bv8)
    requires high < 16 && low < 16
    ensures (high << 4) + low == 16 * high + low
  {}

  lemma {:induction false} TripletIsOctet(s: Bytes, i: nat)
    ensures Triplet(s, i).Some? <==> IsTriplet(s, i)
    ensures IsTriplet(s, i) ==> Triplet(s, i) == Some(OctetAt(s, i))
  {
    if i + 3 <= |s| {
      NibbleIsDigit(s[i + 1]);
      NibbleIsDigit(s[i + 2]);
      if IsTriplet(s, i) {
        NibblesJoin(Nibble(s[i + 1]), Nibble(s[i + 2]));
      }
    }
  }

  lemma {:induction false} OctetsAreEncoded(s: Bytes, i: nat, n: nat)
    requires n <= |Octets(s, i)|
    ensures Encoded(s, i, Octets(s, i)[..n])
    decreases n
  {
    TripletIsOctet(s, i);
    if n > 0 {
      OctetsAreEncoded(s, i + 3, n - 1);
      assert Octets(s, i)[..n][1..] == Octets(s, i + 3)[..n - 1];
    }
  }

  lemma {:induction false} EncodedAreOctets(s: Bytes, i: nat, octets: Bytes)
    requires Encoded(s, i, octets)
    ensures |octets| <= |Octets(s, i)| && Octets(s, i)[..|octets|] == octets
    decreases octets
  {
    TripletIsOctet(s, i);
    if |octets| > 0 {
      EncodedAreOctets(s, i + 3, octets[1..]);
      assert octets == [octets[0]] + octets[1..];
    }
  }

  lemma {:induction false} UnreservedNeedNoEncoding(c: bv8)
    ensures Unreserved(c) <==> !NeedPercentEncode(c)
  {}

  /** A sequence that stands at the start of octets is the one that is decoded. */
  lemma {:induction false} CharIsDecoded(all: Bytes, octets: Bytes)
    requires |octets| <= |all| && all[..|octets|] == octets && Utf8Char(octets)
    ensures Decode(all, 0).ok && Decode(all, 0).length == |octets|
  {
    WellFormedIsEncoding(octets);
    var codepoint := Value(octets);
    TakenInside(all, 0, |octets|);
    DecodeOfEncoding(all, 0, codepoint);
  }

  lemma {:induction false} DecodedIsChar(all: Bytes)
    requires Decode(all, 0).ok && Decode(all, 0).length <= |all|
    ensures Utf8Char(all[..Decode(all, 0).length])
  {
    DecodeAcceptsWellFormed(all, 0);
    TakenInside(all, 0, Decode(all, 0).length);
  }

  lemma {:induction false} OctetsUnit(s: Bytes, i: nat)
    requires i < |s| && s[i] == 0x25
    ensures UnitIs(s, true, i, ReadOctets(s, i))
  {
    var all := Octets(s, i);
    var d := Decode(all, 0);
    if d.ok && d.length <= |all| {
      DecodedIsChar(all);
      OctetsAreEncoded(s, i, d.length);
      EncodedUnitRead(s, i, all[..d.length]);
    } else if CharStands(s, i) {
      var octets :| Utf8Char(octets) && Encoded(s, i, octets);
      EncodedAreOctets(s, i, octets);
      CharIsDecoded(all, octets);
    }
  }

  lemma {:induction false} EncodedUnitRead(s: Bytes, i: nat, octets: Bytes)
    requires i < |s| && s[i] == 0x25 && Utf8Char(octets) && Encoded(s, i, octets)
    requires octets <= Octets(s, i) && Decode(Octets(s, i), 0).ok && Decode(Octets(s, i), 0).length == |octets|
    ensures EncodedUnit(s, i, octets, ReadOctets(s, i))
  {
    if |octets| == 1 {
      assert octets == [octets[0]];
    }
  }

  lemma {:induction false} UnitRead(s: Bytes, uriFragment: bool, i: nat)
    requires i < |s|
    ensures UnitIs(s, uriFragment, i, ReadUnit(s, uriFragment, i))
  {
    UnreservedNeedNoEncoding(s[i]);
    if uriFragment && s[i] == 0x25 {
      OctetsUnit(s, i);
    }
  }

  /** There is only one sequence percent-encoded at a place. */
  lemma {:induction false} OneChar(s: Bytes, i: nat, a: Bytes, b: Bytes)
    requires Utf8Char(a) && Encoded(s, i, a) && Utf8Char(b) && Encoded(s, i, b)
    ensures a == b
  {
    EncodedAreOctets(s, i, a);
    EncodedAreOctets(s, i, b);
    CharIsDecoded(Octets(s, i), a);
    CharIsDecoded(Octets(s, i), b);
  }

  lemma {:induction false} OneUnit(s: Bytes, uriFragment: bool, i: nat, u: Unit, v: Unit)
    requires i < |s| && UnitIs(s, uriFragment, i, u) && UnitIs(s, uriFragment, i, v)
    ensures u == v
  {
    if uriFragment && s[i] == 0x25 && CharStands(s, i) {
      var a :| EncodedUnit(s, i, a, u);
      var b :| EncodedUnit(s, i, b, v);
      OneChar(s, i, a, b);
    }
  }

  // ----- Names -----

  // The characters of a name, the bytes they stand for, and where they end.
  datatype Name = Name(units: seq<Unit>, bytes: Bytes, end: nat)

  /** Characters follow one another from a place on, none of them a slash. */
  ghost predicate UnitsStand(s: Bytes, uriFragment: bool, i: nat, units: seq<Unit>, bytes: Bytes, end: nat)
    decreases units
  {
    if |units| == 0 then end == i && bytes == []
    else
      && i < |s| && s[i] != 0x2F
      && units[0].Good? && UnitIs(s, uriFragment, i, units[0])
      && units[0].bytes <= bytes
      && UnitsStand(s, uriFragment, units[0].next, units[1..], bytes[|units[0].bytes|..], end)
  }

  ghost predicate NameStands(s: Bytes, uriFragment: bool, i: nat, n: Name) {
    UnitsStand(s, uriFragment, i, n.units, n.bytes, n.end)
  }

  /** A name ends at a slash, or with the text, or at a character that is none. */
  ghost predicate NameEnds(s: Bytes, uriFragment: bool, end: nat, bytes: Bytes, u: Unit) {
    match u
    case Good(next, name) => next == end <= |s| && (end < |s| ==> s[end] == 0x2F) && name == bytes
    case Bad(_, _) => end < |s| && s[end] != 0x2F && UnitIs(s, uriFragment, end, u)
  }

  lemma {:induction false} OneUnitMore(s: Bytes, uriFragment: bool, i: nat, u: Unit, n: Name, m: Name)
    requires i < |s| && s[i] != 0x2F && u.Good? && UnitIs(s, uriFragment, i, u)
    requires NameStands(s, uriFragment, u.next, n) && m == Name([u] + n.units, u.bytes + n.bytes, n.end)
    ensures NameStands(s, uriFragment, i, m)
  {
    assert m.units[1..] == n.units && m.bytes[|u.bytes|..] == n.bytes;
  }

  lemma {:induction false} Joined(a: Bytes, b: Bytes, c: Bytes)
    ensures a + (b + c) == a + b + c
  {}

  lemma {:induction false} NameRead(s: Bytes, uriFragment: bool, i: nat, before: Bytes) returns (n: Name)
    requires i <= |s|
    ensures NameStands(s, uriFragment, i, n)
    ensures NameEnds(s, uriFragment, n.end, before + n.bytes, ReadName(s, uriFragment, i, before))
    decreases |s| - i
  {
    if i >= |s| || s[i] == 0x2F {
      n := Name([], [], i);
      assert before + [] == before;
    } else {
      var u := ReadUnit(s, uriFragment, i);
      UnitRead(s, uriFragment, i);
      if u.Good? {
        ReadUnitMovesOn(s, uriFragment, i);
        var rest := NameRead(s, uriFragment, u.next, before + u.bytes);
        n := Name([u] + rest.units, u.bytes + rest.bytes, rest.end);
        OneUnitMore(s, uriFragment, i, u, rest, n);
        Joined(before, u.bytes, rest.bytes);
      } else {
        n := Name([], [], i);
      }
    }
  }

  /** Where names and their ends are the same, so are their characters. */
  lemma {:induction false} OneName(s: Bytes, uriFragment: bool, i: nat, n: Name, u: Unit, m: Name, v: Unit)
    requires NameStands(s, uriFragment, i, n) && NameEnds(s, uriFragment, n.end, n.bytes, u)
    requires NameStands(s, uriFragment, i, m) && NameEnds(s, uriFragment, m.end, m.bytes, v)
    ensures n.end == m.end && n.bytes == m.bytes && u == v
    decreases n.units
  {
    if |n.units| == 0 && |m.units| == 0 {
      SameEnd(s, uriFragment, i, n.bytes, u, v);
    } else if |n.units| == 0 {
      GoesOn(s, uriFragment, i, n.bytes, u, m.units[0]);
    } else if |m.units| == 0 {
      GoesOn(s, uriFragment, i, m.bytes, v, n.units[0]);
    } else {
      OneUnit(s, uriFragment, i, n.units[0], m.units[0]);
      var k := |n.units[0].bytes|;
      var n', m' := Name(n.units[1..], n.bytes[k..], n.end), Name(m.units[1..], m.bytes[k..], m.end);
      assert n.bytes == n.units[0].bytes + n'.bytes && m.bytes == m.units[0].bytes + m'.bytes;
      OneName(s, uriFragment, n.units[0].next, n', Rest(u, k), m', Rest(v, k));
    }
  }

  /** What is left of a name behind its first bytes. */
  function Rest(u: Unit, k: nat): Unit {
    match u
    case Good(next, bytes) => Good(next, if k <= |bytes| then bytes[k..] else [])
    case Bad(_, _) => u
  }

  lemma {:induction false} SameEnd(s: Bytes, uriFragment: bool, end: nat, bytes: Bytes, u: Unit, v: Unit)
    requires NameEnds(s, uriFragment, end, bytes, u) && NameEnds(s, uriFragment, end, bytes, v)
    ensures u == v
  {
    if u.Bad? && v.Bad? {
      OneUnit(s, uriFragment, end, u, v);
    }
  }

  lemma {:induction false} GoesOn(s: Bytes, uriFragment: bool, i: nat, bytes: Bytes, u: Unit, first: Unit)
    requires i < |s| && s[i] != 0x2F && first.Good? && UnitIs(s, uriFragment, i, first)
    ensures !NameEnds(s, uriFragment, i, bytes, u)
  {
    if u.Bad? && UnitIs(s, uriFragment, i, u) {
      OneUnit(s, uriFragment, i, u, first);
    }
  }

  // ----- Pointers -----

  /** Names stand one after another, each behind its slash. */
  ghost predicate NamesStand(s: Bytes, uriFragment: bool, i: nat, names: seq<Name>, end: nat)
    decreases names
  {
    if |names| == 0 then end == i
    else
      && i < |s| && s[i] == 0x2F
      && NameStands(s, uriFragment, i + 1, names[0])
      && NameEnds(s, uriFragment, names[0].end, names[0].bytes, Good(names[0].end, names[0].bytes))
      && NamesStand(s, uriFragment, names[0].end, names[1..], end)
  }

  function TokensOf(names: seq<Name>): (ts: seq<Token>)
    ensures |ts| == |names|
    ensures forall k | 0 <= k < |ts| :: ts[k].name == names[k].bytes && ts[k].index == IndexOf(names[k].bytes)
  {
    if |names| == 0 then [] else [TokenOf(names[0].bytes)] + TokensOf(names[1..])
  }

  /** Behind its names a pointer is at the end of its text; or else it is invalid, at a character of the
      next name that is none. */
  ghost predicate PointerEnds(s: Bytes, uriFragment: bool, names: seq<Name>, end: nat, before: seq<Token>, p: Pointer) {
    match p
    case Valid(tokens) => end == |s| && tokens == before + TokensOf(names)
    case Invalid(error, offset) =>
      end < |s| && s[end] == 0x2F && exists last :: BadName(s, uriFragment, end, last, Bad(error, offset))
  }

  ghost predicate BadName(s: Bytes, uriFragment: bool, end: nat, last: Name, u: Unit) {
    u.Bad? && NameStands(s, uriFragment, end + 1, last) && NameEnds(s, uriFragment, last.end, last.bytes, u)
  }

  ghost predicate TokensExplained(s: Bytes, uriFragment: bool, i: nat, before: seq<Token>, p: Pointer,
                                  names: seq<Name>, end: nat) {
    NamesStand(s, uriFragment, i, names, end) && PointerEnds(s, uriFragment, names, end, before, p)
  }

  lemma {:induction false} TokensRead(s: Bytes, uriFragment: bool, i: nat, before: seq<Token>)
    returns (names: seq<Name>, end: nat)
    requires i <= |s| && (i < |s| ==> s[i] == 0x2F)
    ensures TokensExplained(s, uriFragment, i, before, ReadTokens(s, uriFragment, i, before), names, end)
    decreases |s| - i
  {
    if i >= |s| {
      names, end := [], i;
      assert before + [] == before;
    } else {
      var n := NameRead(s, uriFragment, i + 1, []);
      assert [] + n.bytes == n.bytes;
      var u := ReadName(s, uriFragment, i + 1, []);
      if u.Bad? {
        names, end := [], i;
        assert BadName(s, uriFragment, i, n, u);
      } else {
        ReadNameMovesOn(s, uriFragment, i + 1, []);
        var after := before + [TokenOf(n.bytes)];
        names, end := TokensRead(s, uriFragment, n.end, after);
        OneNameMore(s, uriFragment, i, before, ReadTokens(s, uriFragment, n.end, after), n, names, end);
        names := [n] + names;
      }
    }
  }

  lemma {:induction false} OneNameMore(s: Bytes, uriFragment: bool, i: nat, before: seq<Token>, p: Pointer, n: Name,
                                       names: seq<Name>, end: nat)
    requires i < |s| && s[i] == 0x2F && NameStands(s, uriFragment, i + 1, n)
    requires NameEnds(s, uriFragment, n.end, n.bytes, Good(n.end, n.bytes))
    requires TokensExplained(s, uriFragment, n.end, before + [TokenOf(n.bytes)], p, names, end)
    ensures TokensExplained(s, uriFragment, i, before, p, [n] + names, end)
  {
    var all := [n] + names;
    assert all[0] == n && all[1..] == names;
    NameMore(s, uriFragment, before, p, all, end);
  }

  lemma {:induction false} NameMore(s: Bytes, uriFragment: bool, before: seq<Token>, p: Pointer, names: seq<Name>, end: nat)
    requires |names| > 0 && PointerEnds(s, uriFragment, names[1..], end, before + [TokenOf(names[0].bytes)], p)
    ensures PointerEnds(s, uriFragment, names, end, before, p)
  {
    var first, rest := [TokenOf(names[0].bytes)], TokensOf(names[1..]);
    assert before + (first + rest) == before + first + rest;
  }

  lemma {:induction false} OneExplanation(s: Bytes, uriFragment: bool, i: nat, before: seq<Token>,
                                          p: Pointer, names: seq<Name>, end: nat, p': Pointer, names': seq<Name>, end': nat)
    requires TokensExplained(s, uriFragment, i, before, p, names, end)
    requires TokensExplained(s, uriFragment, i, before, p', names', end')
    ensures p == p'
    decreases names
  {
    if |names| == 0 && |names'| == 0 {
      EndsOneWay(s, uriFragment, before, p, p', end);
    } else if |names| == 0 {
      NameGoesOn(s, uriFragment, before, p, end, names'[0]);
    } else if |names'| == 0 {
      NameGoesOn(s, uriFragment, before, p', end', names[0]);
    } else {
      var n, m := names[0], names'[0];
      OneName(s, uriFragment, i + 1, n, Good(n.end, n.bytes), m, Good(m.end, m.bytes));
      var after := before + [TokenOf(n.bytes)];
      NameLess(s, uriFragment, before, p, names, end);
      NameLess(s, uriFragment, before, p', names', end');
      OneExplanation(s, uriFragment, n.end, after, p, names[1..], end, p', names'[1..], end');
    }
  }

  lemma {:induction false} NameLess(s: Bytes, uriFragment: bool, before: seq<Token>, p: Pointer, names: seq<Name>, end: nat)
    requires |names| > 0 && PointerEnds(s, uriFragment, names, end, before, p)
    ensures PointerEnds(s, uriFragment, names[1..], end, before + [TokenOf(names[0].bytes)], p)
  {
    var first, rest := [TokenOf(names[0].bytes)], TokensOf(names[1..]);
    assert before + (first + rest) == before + first + rest;
  }

  lemma {:induction false} EndsOneWay(s: Bytes, uriFragment: bool, before: seq<Token>, p: Pointer, p': Pointer, end: nat)
    requires PointerEnds(s, uriFragment, [], end, before, p) && PointerEnds(s, uriFragment, [], end, before, p')
    ensures p == p'
  {
    if p.Invalid? && p'.Invalid? {
      var u, u' := Bad(p.error, p.offset), Bad(p'.error, p'.offset);
      var n :| BadName(s, uriFragment, end, n, u);
      var m :| BadName(s, uriFragment, end, m, u');
      OneName(s, uriFragment, end + 1, n, u, m, u');
    }
  }

  lemma {:induction false} NameGoesOn(s: Bytes, uriFragment: bool, before: seq<Token>, p: Pointer, end: nat, n: Name)
    requires end < |s| && NameStands(s, uriFragment, end + 1, n)
    requires NameEnds(s, uriFragment, n.end, n.bytes, Good(n.end, n.bytes))
    ensures !PointerEnds(s, uriFragment, [], end, before, p)
  {
    if p.Invalid? {
      forall m ensures !BadName(s, uriFragment, end, m, Bad(p.error, p.offset)) {
        if BadName(s, uriFragment, end, m, Bad(p.error, p.offset)) {
          OneName(s, uriFragment, end + 1, n, Good(n.end, n.bytes), m, Bad(p.error, p.offset));
        }
      }
    }
  }

  ghost predicate Explained(s: Bytes, uriFragment: bool, start: nat, p: Pointer) {
    exists names, end :: TokensExplained(s, uriFragment, start, [], p, names, end)
  }

  /** What a text is as a pointer: behind the hash of a fragment, nothing, or names behind their slashes. */
  ghost predicate PointerIs(s: Bytes, p: Pointer) {
    var uriFragment := |s| > 0 && s[0] == 0x23;
    var start := if uriFragment then 1 else 0;
    if start < |s| && s[start] != 0x2F then p == Invalid(TokenMustBeginWithSolidus, start)
    else Explained(s, uriFragment, start, p)
  }

  lemma {:induction false} TokensAreExplained(s: Bytes, uriFragment: bool, start: nat, p: Pointer)
    requires start <= |s| && (start < |s| ==> s[start] == 0x2F)
    ensures Explained(s, uriFragment, start, p) <==> p == ReadTokens(s, uriFragment, start, [])
  {
    var names, end := TokensRead(s, uriFragment, start, []);
    var q := ReadTokens(s, uriFragment, start, []);
    assert TokensExplained(s, uriFragment, start, [], q, names, end);
    if Explained(s, uriFragment, start, p) {
      var names', end' :| TokensExplained(s, uriFragment, start, [], p, names', end');
      OneExplanation(s, uriFragment, start, [], p, names', end', q, names, end);
    }
  }

  // ----- Writing a character -----

  predicate UpperHex(c: bv8, n: bv8) {
    (n < 10 && c == 0x30 + n) || (10 <= n < 16 && c == 0x41 + (n - 10))
  }

  /** The percent triplet of an octet, its digits in upper case. */
  predicate TripletOf(triplet: Bytes, octet: bv8) {
    |triplet| == 3 && triplet[0] == 0x25 && UpperHex(triplet[1], octet / 16) && UpperHex(triplet[2], octet % 16)
  }

  predicate TripletsOf(out: Bytes, octets: Bytes)
    decreases octets
  {
    if |octets| == 0 then out == []
    else |out| >= 3 && TripletOf(out[..3], octets[0]) && TripletsOf(out[3..], octets[1..])
  }

  /** What is written for the character of a name at a place. */
  ghost predicate WrittenIs(name: Bytes, uriFragment: bool, j: nat, w: Option<(nat, Bytes)>)
    requires j < |name|
  {
    if name[j] == 0x7E then w == Some((1, [0x7E, 0x30]))
    else if name[j] == 0x2F then w == Some((1, [0x7E, 0x31]))
    else if uriFragment && !Unreserved(name[j]) then
      match w
      case None => forall n: nat :: !Utf8Char(Taken(name, j, n))
      case Some((n, out)) => j + n <= |name| && Utf8Char(name[j..j + n]) && TripletsOf(out, name[j..j + n])
    else w == Some((1, [name[j]]))
  }

  lemma {:induction false} LetterIsUpper(octet: bv8)
    ensures UpperHex(HexLetter(octet >> 4), octet / 16) && UpperHex(HexLetter(octet & 15), octet % 16)
  {}

  lemma {:induction false} PercentEncodeIsTriplets(octets: Bytes)
    ensures TripletsOf(PercentEncode(octets), octets)
    decreases octets
  {
    if |octets| > 0 {
      LetterIsUpper(octets[0]);
      PercentEncodeIsTriplets(octets[1..]);
      assert PercentEncode(octets)[3..] == PercentEncode(octets[1..]);
    }
  }

  lemma {:induction false} NoCharStands(name: Bytes, j: nat)
    requires !Decode(name, j).ok
    ensures forall n: nat :: !Utf8Char(Taken(name, j, n))
  {
    forall n: nat ensures !Utf8Char(Taken(name, j, n)) {
      if Utf8Char(Taken(name, j, n)) {
        WellFormedIsEncoding(Taken(name, j, n));
        DecodeOfEncoding(name, j, Value(Taken(name, j, n)));
      }
    }
  }

  lemma {:induction false} UnitWritten(name: Bytes, uriFragment: bool, j: nat)
    requires j < |name|
    ensures WrittenIs(name, uriFragment, j, WriteUnit(name, uriFragment, j))
  {
    UnreservedNeedNoEncoding(name[j]);
    if uriFragment && !Unreserved(name[j]) && name[j] != 0x2F {
      var d := Decode(name, j);
      if d.ok {
        AcceptedInsideStream(name, j);
        DecodeAcceptsWellFormed(name, j);
        TakenInside(name, j, d.length);
        PercentEncodeIsTriplets(name[j..j + d.length]);
      } else {
        NoCharStands(name, j);
      }
    }
  }

  /** Only decimal digits without leading zeros spell an index. */
  lemma {:induction false} OnlyNumeralsAreIndices(name: Bytes)
    requires IndexOf(name) != 0xFFFF_FFFF
    ensures |name| > 0 && (|name| > 1 ==> name[0] != 0x30)
    ensures forall k | 0 <= k < |name| :: 0x30 <= name[k] <= 0x39
  {
    forall k | 0 <= k < |name| ensures 0x30 <= name[k] <= 0x39 {
      assert IsDigit(name[k]);
    }
  }

  /** For every text, parsing gives what it is as a pointer, and nothing else is. */
  lemma {:induction false} ParseIsPointer(s: Bytes, p: Pointer)
    ensures PointerIs(s, p) <==> p == Parse(s)
  {
    var uriFragment := |s| > 0 && s[0] == 0x23;
    var start := if uriFragment then 1 else 0;
    if !(start < |s| && s[start] != 0x2F) {
      TokensAreExplained(s, uriFragment, start, p);
    }
  }
}
