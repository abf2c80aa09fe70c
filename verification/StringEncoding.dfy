/** When a parsed string is UTF-8: an escape may name a low surrogate by itself, and its encoding is
    put out as for any other unit. */
module StringEncoding {
  import opened Basics
  import opened Utf8
  import opened JsonString
  import T = Transcoder

  /** An escape that names a low surrogate without a high one before it. */
  predicate IsLoneTrail(x: Spelling) {
    x.Escaped? && IsUnit(x.digits) && IsTrailValue(Unit(x.digits))
  }

  ghost predicate HasNoLoneTrail(text: seq<Spelling>) {
    forall i | 0 <= i < |text| :: !IsLoneTrail(text[i])
  }

  // ----- Surrogates are encoded, and their encodings refused -----

  lemma {:induction false} TrailBytes(codepoint: bv32)
    requires IsTrailValue(codepoint)
    ensures |EncodeSafe(codepoint)| == 3
    ensures EncodeSafe(codepoint)[0] == 0xED && EncodeSafe(codepoint)[1] >= 0xB0
  {}

  lemma {:induction false} NoCharBeginsSo(bytes: seq<bv8>)
    requires |bytes| == 3 && bytes[0] == 0xED && bytes[1] >= 0xB0
    ensures !Utf8Char(bytes)
  {}

  /** The decoder refuses the encoding of a low surrogate wherever it stands. */
  lemma {:induction false} TrailIsRefused(s: seq<bv8>, at: nat, codepoint: bv32)
    requires IsTrailValue(codepoint)
    requires at + |EncodeSafe(codepoint)| <= |s| && s[at..at + |EncodeSafe(codepoint)|] == EncodeSafe(codepoint)
    ensures !Decode(s, at).ok
  {
    TrailBytes(codepoint);
    assert At(s, at) == s[at..at + 3][0] == 0xED;
    assert At(s, at + 1) == s[at..at + 3][1] >= 0xB0;
    if Decode(s, at).ok {
      AcceptedIsEncoding(s, at);
      DecodeTakes(s, at);
      EncodingIsWellFormed(Decode(s, at).codepoint);
      NoCharBeginsSo(Taken(s, at, 3));
    }
  }

  /** Every other spelling means a code point that may be encoded. */
  lemma {:induction false} MeaningIsScalar(x: Spelling)
    requires ValidSpelling(x) && !IsLoneTrail(x)
    ensures IsScalar(Meaning(x))
  {
    match x
    case Literal(_) =>
    case Short(letter) =>
    case Escaped(digits) => HexGrows(digits, 0);
    case Pair(lead, trail) => CombineIsSmall(Unit(lead), Unit(trail));
  }

  // ----- Whole strings -----

  function Meanings(text: seq<Spelling>): seq<bv32>
    requires ValidText(text)
    decreases text
  {
    if |text| == 0 then [] else [Meaning(text[0])] + Meanings(text[1..])
  }

  lemma {:induction false} NoLoneTrailIn(text: seq<Spelling>)
    requires |text| > 0
    ensures HasNoLoneTrail(text) <==> !IsLoneTrail(text[0]) && HasNoLoneTrail(text[1..])
  {
    assert forall i | 0 < i < |text| :: text[i] == text[1..][i - 1];
  }

  /** What a text means, in UTF-16. */
  function Units(text: seq<Spelling>): seq<bv16>
    requires ValidText(text)
  {
    T.EncodeText(T.UTF16, Meanings(text))
  }

  lemma {:induction false} UnitsMore(text: seq<Spelling>)
    requires ValidText(text) && |text| > 0
    ensures ValidText(text[1..]) && Units(text) == T.EncodeWords(Meaning(text[0])) + Units(text[1..])
  {
    ValidRest(text);
    assert Meanings(text)[0] == Meaning(text[0]) && Meanings(text)[1..] == Meanings(text[1..]);
  }

  function Transcoded(s: seq<bv8>, at: nat): Option<seq<bv16>> {
    T.Transcoded(T.UTF8, T.UTF16, s, at)
  }

  /** Transcoding from one place is a code point, or a refusal, and transcoding from the next. */
  predicate Moves(s: seq<bv8>, at: nat, next: nat, x: Spelling)
    requires ValidSpelling(x)
  {
    Transcoded(s, at) == if IsLoneTrail(x) || Transcoded(s, next).None? then None
                         else Some(T.EncodeWords(Meaning(x)) + Transcoded(s, next).value)
  }

  lemma {:induction false} OneTranscoded(s: seq<bv8>, at: nat, next: nat, x: Spelling, bytes: seq<bv8>)
    requires ValidSpelling(x) && bytes == EncodeSafe(Meaning(x))
    requires next == at + |bytes| <= |s| && s[at..next] == bytes
    ensures Moves(s, at, next, x)
  {
    if IsLoneTrail(x) {
      TrailBytes(Meaning(x));
      TrailIsRefused(s, at, Meaning(x));
    } else {
      MeaningIsScalar(x);
      T.BytesDecoded(s, at, Meaning(x));
    }
  }

  lemma {:induction false} FirstTranscoded(s: seq<bv8>, at: nat, text: seq<Spelling>) returns (next: nat)
    requires ValidText(text) && |text| > 0
    requires at <= |s| && s[at..] == WriteText(text)
    ensures ValidText(text[1..]) && next <= |s| && s[next..] == WriteText(text[1..])
    ensures Moves(s, at, next, text[0])
  {
    var first := EncodeSafe(Meaning(text[0]));
    ValidRest(text);
    T.SplitPrefix(s, at, first, WriteText(text[1..]));
    next := at + |first|;
    OneTranscoded(s, at, next, text[0], first);
  }

  /** Transcoding what a text means stops at its first lone low surrogate, and nowhere else. */
  lemma {:induction false} TranscodedMeaning(s: seq<bv8>, at: nat, text: seq<Spelling>)
    requires ValidText(text)
    requires at <= |s| && s[at..] == WriteText(text)
    ensures Transcoded(s, at) == if HasNoLoneTrail(text) then Some(Units(text)) else None
    decreases text
  {
    if |text| > 0 {
      var next := FirstTranscoded(s, at, text);
      TranscodedMeaning(s, next, text[1..]);
      NoLoneTrailIn(text);
      UnitsMore(text);
    }
  }

  // ----- A string has one reading -----

  lemma {:induction false} LiteralsApart(c: bv32, d: bv32)
    requires IsScalar(c) && IsScalar(d) && Encode(c) == Encode(d)
    ensures c == d
  {
    var s := Encode(c);
    TakenInside(s, 0, |s|);
    assert s[0..|s|] == s;
    DecodeOfEncoding(s, 0, c);
    DecodeOfEncoding(s, 0, d);
  }

  lemma {:induction false} FirstByte(x: Spelling)
    requires ValidSpelling(x)
    ensures |Spell(x)| > 0 && (Spell(x)[0] == BACKSLASH <==> !x.Literal?)
    ensures Spell(x)[0] != QUOTE
  {
    if x.Literal? {
      LiteralIsOrdinary(x.codepoint);
      assert Ordinary(Encode(x.codepoint)[0]);
    }
  }

  lemma {:induction false} SpellingsApart(x: Spelling, y: Spelling)
    requires ValidSpelling(x) && ValidSpelling(y) && Spell(x) == Spell(y)
    ensures x == y
  {
    FirstByte(x);
    FirstByte(y);
    var s := Spell(x);
    match x
    case Literal(c) => LiteralsApart(c, y.codepoint);
    case Short(letter) => assert s[1] == letter;
    case Escaped(digits) => assert s[2..] == digits;
    case Pair(lead, trail) => assert s[2..6] == lead && s[8..] == trail;
  }

  /** No other spelling stands where one stands. */
  lemma {:induction false} OneSpelling(s: seq<bv8>, at: nat, x: Spelling, y: Spelling)
    requires ValidSpelling(x) && ValidSpelling(y) && GoesOn(s, at, Spell(x)) && GoesOn(s, at, Spell(y))
    ensures x == y
  {
    ScanSpelling(true, s, at, x);
    ScanSpelling(true, s, at, y);
    SpellingsApart(x, y);
  }

  /** The spelling of a text and its closing quote stand at a place. */
  predicate StandsQuoted(s: seq<bv8>, at: nat, text: seq<Spelling>) {
    ValidText(text) && at <= |s| && SpellText(text) + [QUOTE] <= s[at..]
  }

  lemma {:induction false} FirstStands(s: seq<bv8>, at: nat, text: seq<Spelling>)
    requires StandsQuoted(s, at, text) && |text| > 0
    ensures ValidSpelling(text[0]) && GoesOn(s, at, Spell(text[0]))
    ensures |s[at..]| > 0 && s[at..][0] != QUOTE
    ensures StandsQuoted(s, at + |Spell(text[0])|, text[1..])
  {
    ValidRest(text);
    FirstByte(text[0]);
    PrefixApart(s, at, Spell(text[0]), SpellText(text[1..]));
    GoesOnInside(s, at, Spell(text[0]));
  }

  lemma {:induction false} FirstAreSame(s: seq<bv8>, at: nat, a: seq<Spelling>, b: seq<Spelling>) returns (next: nat)
    requires StandsQuoted(s, at, a) && StandsQuoted(s, at, b) && |a| > 0 && |b| > 0
    ensures a[0] == b[0] && StandsQuoted(s, next, a[1..]) && StandsQuoted(s, next, b[1..])
  {
    FirstStands(s, at, a);
    FirstStands(s, at, b);
    OneSpelling(s, at, a[0], b[0]);
    next := at + |Spell(a[0])|;
  }

  /** What stands before a closing quote is the spelling of no more than one text. */
  lemma {:induction false} OneReading(s: seq<bv8>, at: nat, a: seq<Spelling>, b: seq<Spelling>)
    requires StandsQuoted(s, at, a) && StandsQuoted(s, at, b)
    ensures a == b
    decreases a
  {
    EmptyBeforeQuote(s, at, a);
    EmptyBeforeQuote(s, at, b);
    if |a| > 0 {
      var next := FirstAreSame(s, at, a, b);
      OneReading(s, next, a[1..], b[1..]);
      SameText(a, b);
    }
  }

  lemma {:induction false} EmptyBeforeQuote(s: seq<bv8>, at: nat, text: seq<Spelling>)
    requires StandsQuoted(s, at, text)
    ensures at <= |s| && |s[at..]| > 0 && (|text| == 0 <==> s[at..][0] == QUOTE)
  {
    if |text| > 0 {
      FirstStands(s, at, text);
    }
  }

  lemma {:induction false} SameText(a: seq<Spelling>, b: seq<Spelling>)
    requires |a| > 0 && |b| > 0 && a[0] == b[0] && a[1..] == b[1..]
    ensures a == b
  {
    assert a == [a[0]] + a[1..] && b == [b[0]] + b[1..];
  }

  lemma {:induction false} ReadIsPrefix(s: seq<bv8>, at: nat, text: seq<Spelling>, r: Parsed)
    requires ValidText(text) && ReadAs(s, at, [], text, r)
    ensures StandsQuoted(s, at, text)
  {
    assert s[at..][..r.next - at] == s[at..r.next];
  }

  /** What a string is parsed to is UTF-8 if and only if no escape in it names a low surrogate by
      itself, though encodings are checked; and then it is the encoding of what the text means. The
      text is the only one that the bytes taken spell. */
  lemma {:induction false} ParsedIsUtf8(s: seq<bv8>, at: nat) returns (text: seq<Spelling>)
    requires at <= |s| && ParseFrom(true, s, at, []).Parsed?
    ensures ValidText(text) && ReadAs(s, at, [], text, ParseFrom(true, s, at, []))
    ensures forall other | ValidText(other) && ReadAs(s, at, [], other, ParseFrom(true, s, at, [])) :: other == text
    ensures Transcoded(ParseFrom(true, s, at, []).bytes, 0) == if HasNoLoneTrail(text) then Some(Units(text)) else None
  {
    text := ParsedText(s, at, []);
    var r, bytes := ParseFrom(true, s, at, []), WriteText(text);
    assert [] + bytes == bytes && bytes[0..] == bytes;
    TranscodedMeaning(bytes, 0, text);
    ReadIsPrefix(s, at, text, r);
    forall other | ValidText(other) && ReadAs(s, at, [], other, r) ensures other == text {
      ReadIsPrefix(s, at, other, r);
      OneReading(s, at, other, text);
    }
  }

  // ----- A string that is accepted and is not UTF-8 -----

  const LONE_TRAIL: seq<bv8> := [0x5C, 0x75, 0x44, 0x43, 0x30, 0x30, 0x22]

  lemma {:induction false} LoneTrailUnit()
    ensures Hex(LONE_TRAIL, 2, 4) == Some(0xDC00)
  {
    assert Hex(LONE_TRAIL, 2, 0) == Some(0);
    assert Hex(LONE_TRAIL, 2, 1) == Some(0xD);
    assert Hex(LONE_TRAIL, 2, 2) == Some(0xDC);
    assert Hex(LONE_TRAIL, 2, 3) == Some(0xDC0);
  }

  /** The escape of DC00 and a quote: accepted with encodings checked, as three bytes that no decoder
      accepts. */
  lemma {:induction false} LoneTrailIsAccepted()
    ensures ParseFrom(true, LONE_TRAIL, 0, []) == Parsed([0xED, 0xB0, 0x80], 7)
    ensures !Decode([0xED, 0xB0, 0x80], 0).ok
    ensures Transcoded([0xED, 0xB0, 0x80], 0) == None
  {
    LoneTrailUnit();
    assert Scan(true, LONE_TRAIL, 0) == Copied(6, EncodeSafe(0xDC00));
    assert EncodeSafe(0xDC00) == [0xED, 0xB0, 0x80];
    OneTurn(true, LONE_TRAIL, 0, [], 6, EncodeSafe(0xDC00));
    assert Scan(true, LONE_TRAIL, 6) == Close;
    var bytes: seq<bv8> := [0xED, 0xB0, 0x80];
    assert [] + bytes == bytes && bytes[0..3] == bytes;
    TrailIsRefused(bytes, 0, 0xDC00);
  }
}
