/** Strings: escapes, surrogate pairs, and what a quoted text stands for. */
module JsonString {
  import opened Basics
  import opened Decimals
  import opened Utf8
  import opened Utf16

  datatype StringError =
    | MissQuotationMark
    | EscapeInvalid
    | UnicodeEscapeInvalidHex
    | UnicodeSurrogateInvalid
    | InvalidEncoding

  const QUOTE: bv8 := 0x22
  const BACKSLASH: bv8 := 0x5C
  const U: bv8 := 0x75

  // ----- Escapes -----

  /** The character that an escape letter stands for; 0, if it stands for none. */
  function Escape(e: bv8): bv8 {
    if e == 0x22 || e == 0x2F || e == 0x5C then e
    else if e == 0x62 then 0x08
    else if e == 0x66 then 0x0C
    else if e == 0x6E then 0x0A
    else if e == 0x72 then 0x0D
    else if e == 0x74 then 0x09
    else 0
  }

  function HexValue(c: bv8): Option<bv32> {
    var digit := HexDigit(c);
    if digit.None? then None else Some(digit.value as bv32)
  }

  function AddDigit(high: bv32, low: bv32): bv32 { (high << 4) + low }

  /** The value of n hexadecimal digits; none, if one of them is no digit. */
  function Hex(s: seq<bv8>, at: nat, n: nat): Option<bv32> {
    if n == 0 then Some(0)
    else
      var high := Hex(s, at, n - 1);
      var low := HexValue(At(s, at + n - 1));
      if high.None? || low.None? then None else Some(AddDigit(high.value, low.value))
  }

  // ----- One turn of the loop -----

  datatype Piece =
    | Close
    | Copied(length: nat, bytes: seq<bv8>)
    | Bad(error: StringError, offset: nat)

  /** The escape that starts with the backslash at a place. */
  function ScanEscape(s: seq<bv8>, at: nat): Piece {
    var e := At(s, at + 1);
    if Escape(e) != 0 then Copied(2, [Escape(e)])
    else if e == U then
      var unit := Hex(s, at + 2, 4);
      if unit.None? then Bad(UnicodeEscapeInvalidHex, at)
      else if IsLeadValue(unit.value) then ScanTrail(s, at, unit.value)
      else ScannedUnit(s, at, unit.value)
    else Bad(EscapeInvalid, at)
  }

  predicate IsLeadValue(codepoint: bv32) { 0xD800 <= codepoint <= 0xDBFF }

  predicate IsTrailValue(codepoint: bv32) { 0xDC00 <= codepoint <= 0xDFFF }

  function EncodeSafe(codepoint: bv32): seq<bv8> {
    if codepoint <= 0x10FFFF then Encode(codepoint) else []
  }

  function ScannedUnit(s: seq<bv8>, at: nat, unit: bv32): Piece {
    Copied(6, EncodeSafe(unit))
  }

  function Combine(lead: bv32, trail: bv32): bv32 {
    FromOffset(PairOffset(lead, trail))
  }

  function PairOffset(lead: bv32, trail: bv32): bv32 {
    ((lead - 0xD800) << 10) | (trail - 0xDC00)
  }

  /** The second half of a surrogate pair. */
  function ScanTrail(s: seq<bv8>, at: nat, lead: bv32): Piece {
    if At(s, at + 6) != BACKSLASH || At(s, at + 7) != U then Bad(UnicodeSurrogateInvalid, at)
    else
      var trail := Hex(s, at + 8, 4);
      if trail.None? then Bad(UnicodeEscapeInvalidHex, at)
      else if !IsTrailValue(trail.value) then Bad(UnicodeSurrogateInvalid, at)
      else Copied(12, EncodeSafe(Combine(lead, trail.value)))
  }

  function ScanLiteral(validate: bool, s: seq<bv8>, at: nat): Piece {
    if !validate then Copied(1, [At(s, at)])
    else
      var d := Decode(s, at);
      if d.ok then Copied(d.length, Taken(s, at, d.length)) else Bad(InvalidEncoding, at)
  }

  function Scan(validate: bool, s: seq<bv8>, at: nat): Piece {
    var c := At(s, at);
    if c == BACKSLASH then ScanEscape(s, at)
    else if c == QUOTE then Close
    else if c == 0 then Bad(MissQuotationMark, at)
    else if c < 0x20 then Bad(InvalidEncoding, at)
    else ScanLiteral(validate, s, at)
  }

  // ----- The whole string, from after its opening quote -----

  datatype Parsed = Parsed(bytes: seq<bv8>, next: nat) | Failed(error: StringError, offset: nat)

  function ParseFrom(validate: bool, s: seq<bv8>, at: nat, before: seq<bv8>): Parsed
    decreases |s| - at
  {
    match Scan(validate, s, at)
    case Close => Parsed(before, at + 1)
    case Bad(error, offset) => Failed(error, offset)
    case Copied(length, bytes) =>
      ScanMovesOn(validate, s, at);
      ParseFrom(validate, s, at + length, before + bytes)
  }

  lemma {:induction false} ScanMovesOn(validate: bool, s: seq<bv8>, at: nat)
    requires Scan(validate, s, at).Copied?
    ensures at < |s| && Scan(validate, s, at).length > 0
  {
    DecodeTakes(s, at);
  }

  // ----- Spellings of code points (section 7 of RFC 8259) -----

  // As itself, by an escape letter, by a unit in hexadecimal, or by two surrogate units.
  datatype Spelling =
    | Literal(codepoint: bv32)
    | Short(letter: bv8)
    | Escaped(digits: seq<bv8>)
    | Pair(lead: seq<bv8>, trail: seq<bv8>)

  predicate IsUnit(digits: seq<bv8>) {
    |digits| == 4 && Hex(digits, 0, 4).Some?
  }

  function Unit(digits: seq<bv8>): bv32
    requires IsUnit(digits)
  {
    Hex(digits, 0, 4).value
  }

  /** A unit by itself may be a low surrogate: the code refuses only an unpaired high one. */
  predicate ValidSpelling(x: Spelling) {
    match x
    case Literal(codepoint) => IsScalar(codepoint) && codepoint >= 0x20 && codepoint != 0x22 && codepoint != 0x5C
    case Short(letter) => Escape(letter) != 0
    case Escaped(digits) => IsUnit(digits) && !IsLeadValue(Unit(digits))
    case Pair(lead, trail) => IsUnit(lead) && IsUnit(trail) && IsLeadValue(Unit(lead)) && IsTrailValue(Unit(trail))
  }

  function Spell(x: Spelling): seq<bv8>
    requires ValidSpelling(x)
  {
    match x
    case Literal(codepoint) => Encode(codepoint)
    case Short(letter) => [BACKSLASH, letter]
    case Escaped(digits) => [BACKSLASH, U] + digits
    case Pair(lead, trail) => [BACKSLASH, U] + lead + [BACKSLASH, U] + trail
  }

  function Meaning(x: Spelling): bv32
    requires ValidSpelling(x)
  {
    match x
    case Literal(codepoint) => codepoint
    case Short(letter) => Escape(letter) as bv32
    case Escaped(digits) => Unit(digits)
    case Pair(lead, trail) => Combine(Unit(lead), Unit(trail))
  }

  // ----- Units in hexadecimal -----

  predicate Same(s: seq<bv8>, at: nat, digits: seq<bv8>, n: nat) {
    n <= |digits| && forall i | 0 <= i < n :: At(s, at + i) == digits[i]
  }

  lemma {:induction false} HexMoved(s: seq<bv8>, at: nat, digits: seq<bv8>, n: nat)
    requires Same(s, at, digits, n)
    ensures Hex(s, at, n) == Hex(digits, 0, n)
  {
    if n > 0 {
      assert At(s, at + (n - 1)) == digits[n - 1];
      HexMoved(s, at, digits, n - 1);
    }
  }

  lemma {:induction false} HexValueIsSmall(c: bv8)
    ensures HexValue(c).Some? ==> HexValue(c).value < 16
  {}

  lemma {:induction false} HexGrows(s: seq<bv8>, at: nat)
    requires Hex(s, at, 4).Some?
    ensures Hex(s, at, 4).value <= 0xFFFF
  {
    HexValueIsSmall(At(s, at));
    HexValueIsSmall(At(s, at + 1));
    HexValueIsSmall(At(s, at + 2));
    HexValueIsSmall(At(s, at + 3));
    var h1 := Hex(s, at, 1);
    var h2 := Hex(s, at, 2);
    var h3 := Hex(s, at, 3);
    assert Hex(s, at, 0) == Some(0);
    OneDigitMore(0, HexValue(At(s, at)).value, 0x1);
    OneDigitMore(h1.value, HexValue(At(s, at + 1)).value, 0x10);
    OneDigitMore(h2.value, HexValue(At(s, at + 2)).value, 0x100);
    OneDigitMore(h3.value, HexValue(At(s, at + 3)).value, 0x1000);
  }

  lemma {:induction false} OneDigitMore(high: bv32, low: bv32, bound: bv32)
    requires bound <= 0x1000 && high < bound && low < 16
    ensures AddDigit(high, low) < (bound << 4)
  {}

  lemma {:induction false} CombineIsSmall(lead: bv32, trail: bv32)
    requires IsLeadValue(lead) && IsTrailValue(trail)
    ensures 0x10000 <= Combine(lead, trail) <= 0x10FFFF
  {}

  lemma {:induction false} MeaningIsSmall(x: Spelling)
    requires ValidSpelling(x)
    ensures Meaning(x) <= 0x10FFFF
  {
    match x
    case Literal(_) =>
    case Short(_) =>
    case Escaped(digits) => HexGrows(digits, 0);
    case Pair(lead, trail) => CombineIsSmall(Unit(lead), Unit(trail));
  }

  // ----- What one turn makes of a spelling -----

  /** A stream goes on with some bytes. */
  predicate GoesOn(s: seq<bv8>, at: nat, bytes: seq<bv8>) {
    Taken(s, at, |bytes|) == bytes
  }

  lemma {:induction false} GoesOnAt(s: seq<bv8>, at: nat, bytes: seq<bv8>, i: nat)
    requires GoesOn(s, at, bytes) && i < |bytes|
    ensures At(s, at + i) == bytes[i]
  {
    assert Taken(s, at, |bytes|)[i] == bytes[i];
  }

  predicate Ordinary(c: bv8) { c >= 0x20 && c != QUOTE && c != BACKSLASH }

  lemma {:induction false} LiteralIsOrdinary(codepoint: bv32)
    requires ValidSpelling(Literal(codepoint))
    ensures |Encode(codepoint)| > 0
    ensures forall i | 0 <= i < |Encode(codepoint)| :: Ordinary(Encode(codepoint)[i])
  {}

  lemma {:induction false} ScanLiteralSpelling(s: seq<bv8>, at: nat, codepoint: bv32)
    requires ValidSpelling(Literal(codepoint)) && GoesOn(s, at, Encode(codepoint))
    ensures Scan(true, s, at) == Copied(|Encode(codepoint)|, Encode(codepoint))
  {
    LiteralIsOrdinary(codepoint);
    GoesOnAt(s, at, Encode(codepoint), 0);
    DecodeOfEncoding(s, at, codepoint);
    OrdinaryIsLiteral(true, s, at);
  }

  lemma {:induction false} OrdinaryIsLiteral(validate: bool, s: seq<bv8>, at: nat)
    requires Ordinary(At(s, at))
    ensures Scan(validate, s, at) == ScanLiteral(validate, s, at)
  {}

  lemma {:induction false} LettersApart(e: bv8)
    ensures Escape(e) != 0 ==> e != U
    ensures Escape(e) != 0 ==> EncodeSafe(Escape(e) as bv32) == [Escape(e)]
  {}

  lemma {:induction false} ScanShortSpelling(validate: bool, s: seq<bv8>, at: nat, letter: bv8)
    requires Escape(letter) != 0 && GoesOn(s, at, [BACKSLASH, letter])
    ensures Scan(validate, s, at) == Copied(2, EncodeSafe(Escape(letter) as bv32))
  {
    GoesOnAt(s, at, [BACKSLASH, letter], 0);
    GoesOnAt(s, at, [BACKSLASH, letter], 1);
    LettersApart(letter);
  }

  lemma {:induction false} ScanUnit(s: seq<bv8>, at: nat, bytes: seq<bv8>, from: nat, digits: seq<bv8>)
    requires GoesOn(s, at, bytes) && IsUnit(digits)
    requires from + 4 <= |bytes| && bytes[from..from + 4] == digits
    ensures Hex(s, at + from, 4) == Some(Unit(digits))
  {
    forall i | 0 <= i < 4 ensures At(s, at + from + i) == digits[i] {
      GoesOnAt(s, at, bytes, from + i);
      assert bytes[from..from + 4][i] == bytes[from + i];
    }
    HexMoved(s, at + from, digits, 4);
  }

  lemma {:induction false} ScanEscapedSpelling(validate: bool, s: seq<bv8>, at: nat, digits: seq<bv8>)
    requires ValidSpelling(Escaped(digits)) && GoesOn(s, at, [BACKSLASH, U] + digits)
    ensures Scan(validate, s, at) == Copied(6, EncodeSafe(Unit(digits)))
  {
    var bytes := [BACKSLASH, U] + digits;
    GoesOnAt(s, at, bytes, 0);
    GoesOnAt(s, at, bytes, 1);
    LettersApart(U);
    ScanUnit(s, at, bytes, 2, digits);
  }

  lemma {:induction false} ScanPairSpelling(validate: bool, s: seq<bv8>, at: nat, lead: seq<bv8>, trail: seq<bv8>)
    requires ValidSpelling(Pair(lead, trail)) && GoesOn(s, at, [BACKSLASH, U] + lead + [BACKSLASH, U] + trail)
    ensures Scan(validate, s, at) == Copied(12, EncodeSafe(Combine(Unit(lead), Unit(trail))))
  {
    var bytes := [BACKSLASH, U] + lead + [BACKSLASH, U] + trail;
    GoesOnAt(s, at, bytes, 0);
    GoesOnAt(s, at, bytes, 1);
    GoesOnAt(s, at, bytes, 6);
    GoesOnAt(s, at, bytes, 7);
    LettersApart(U);
    ScanUnit(s, at, bytes, 2, lead);
    ScanUnit(s, at, bytes, 8, trail);
    assert Scan(validate, s, at) == ScanTrail(s, at, Unit(lead));
  }

  // ----- What a turn copies is a spelling -----

  lemma {:induction false} DigitsInside(s: seq<bv8>, at: nat)
    requires Hex(s, at, 4).Some?
    ensures IsUnit(Taken(s, at, 4)) && Unit(Taken(s, at, 4)) == Hex(s, at, 4).value
    ensures at + 4 <= |s|
  {
    assert At(s, at + 3) != 0;
    HexMoved(s, at, Taken(s, at, 4), 4);
  }

  lemma {:induction false} LiteralRead(s: seq<bv8>, at: nat) returns (x: Spelling)
    requires Ordinary(At(s, at)) && Decode(s, at).ok
    ensures ValidSpelling(x) && Taken(s, at, Decode(s, at).length) == Spell(x)
    ensures Spell(x) == EncodeSafe(Meaning(x))
    ensures at + Decode(s, at).length <= |s|
  {
    var codepoint := Decode(s, at).codepoint;
    AcceptedIsEncoding(s, at);
    AcceptedInsideStream(s, at);
    assert At(s, at) == Encode(codepoint)[0] by { DecodeTakes(s, at); }
    OrdinaryLead(codepoint);
    x := Literal(codepoint);
  }

  lemma {:induction false} OrdinaryLead(codepoint: bv32)
    requires IsScalar(codepoint) && |Encode(codepoint)| > 0 && Ordinary(Encode(codepoint)[0])
    ensures ValidSpelling(Literal(codepoint))
  {}

  lemma {:induction false} TakenPair(s: seq<bv8>, at: nat, a: bv8, b: bv8)
    requires At(s, at) == a && At(s, at + 1) == b
    ensures Taken(s, at, 2) == [a, b]
  {}

  lemma {:induction false} TakenParts(s: seq<bv8>, at: nat, m: nat, n: nat)
    ensures Taken(s, at, m + n) == Taken(s, at, m) + Taken(s, at + m, n)
  {}

  lemma {:induction false} EscapeRead(s: seq<bv8>, at: nat) returns (x: Spelling)
    requires At(s, at) == BACKSLASH && ScanEscape(s, at).Copied?
    ensures ValidSpelling(x) && Taken(s, at, ScanEscape(s, at).length) == Spell(x)
    ensures ScanEscape(s, at).bytes == EncodeSafe(Meaning(x))
    ensures at + ScanEscape(s, at).length <= |s|
  {
    var e := At(s, at + 1);
    LettersApart(e);
    TakenPair(s, at, BACKSLASH, e);
    if Escape(e) != 0 {
      x := Short(e);
    } else {
      var unit := Hex(s, at + 2, 4).value;
      DigitsInside(s, at + 2);
      TakenParts(s, at, 2, 4);
      if IsLeadValue(unit) {
        var trail := Hex(s, at + 8, 4).value;
        DigitsInside(s, at + 8);
        TakenPair(s, at + 6, BACKSLASH, U);
        TakenParts(s, at, 6, 2);
        TakenParts(s, at, 8, 4);
        x := Pair(Taken(s, at + 2, 4), Taken(s, at + 8, 4));
      } else {
        x := Escaped(Taken(s, at + 2, 4));
      }
    }
  }

  lemma {:induction false} ScanRead(s: seq<bv8>, at: nat) returns (x: Spelling)
    requires Scan(true, s, at).Copied?
    ensures ValidSpelling(x) && Taken(s, at, Scan(true, s, at).length) == Spell(x)
    ensures Scan(true, s, at).bytes == EncodeSafe(Meaning(x))
    ensures at + Scan(true, s, at).length <= |s|
  {
    if At(s, at) == BACKSLASH {
      x := EscapeRead(s, at);
    } else {
      ScannedIsOrdinary(s, at);
      x := LiteralRead(s, at);
    }
  }

  lemma {:induction false} ScannedIsOrdinary(s: seq<bv8>, at: nat)
    requires Scan(true, s, at).Copied? && At(s, at) != BACKSLASH
    ensures Ordinary(At(s, at)) && Decode(s, at).ok
    ensures Scan(true, s, at) == Copied(Decode(s, at).length, Taken(s, at, Decode(s, at).length))
  {}

  // ----- Whole strings -----

  predicate ValidText(text: seq<Spelling>) {
    forall i | 0 <= i < |text| :: ValidSpelling(text[i])
  }

  function SpellText(text: seq<Spelling>): seq<bv8>
    requires ValidText(text)
    decreases text
  {
    if |text| == 0 then [] else Spell(text[0]) + SpellText(text[1..])
  }

  /** The UTF-8 encoding of what a text means. */
  function WriteText(text: seq<Spelling>): seq<bv8>
    requires ValidText(text)
    decreases text
  {
    if |text| == 0 then [] else EncodeSafe(Meaning(text[0])) + WriteText(text[1..])
  }

  /** Bytes that are neither quote, backslash nor control are copied one by one when the encoding
      is not checked. */
  lemma {:induction false} OrdinaryBytes(s: seq<bv8>, at: nat, bytes: seq<bv8>, before: seq<bv8>)
    requires at + |bytes| <= |s| && s[at..at + |bytes|] == bytes
    requires forall i | 0 <= i < |bytes| :: Ordinary(bytes[i])
    ensures ParseFrom(false, s, at, before) == ParseFrom(false, s, at + |bytes|, before + bytes)
    decreases bytes
  {
    if |bytes| == 0 {
      assert before + bytes == before;
    } else {
      assert At(s, at) == s[at..at + |bytes|][0] == bytes[0];
      OrdinaryIsLiteral(false, s, at);
      assert s[at + 1..at + |bytes|] == s[at..at + |bytes|][1..];
      OrdinaryBytes(s, at + 1, bytes[1..], before + [bytes[0]]);
      assert before + [bytes[0]] + bytes[1..] == before + bytes;
    }
  }

  lemma {:induction false} GoesOnInside(s: seq<bv8>, at: nat, bytes: seq<bv8>)
    requires at + |bytes| <= |s| && s[at..at + |bytes|] == bytes
    ensures GoesOn(s, at, bytes)
  {
    TakenInside(s, at, |bytes|);
  }

  lemma {:induction false} OneTurn(validate: bool, s: seq<bv8>, at: nat, before: seq<bv8>, length: nat, bytes: seq<bv8>)
    requires Scan(validate, s, at) == Copied(length, bytes)
    ensures ParseFrom(validate, s, at, before) == ParseFrom(validate, s, at + length, before + bytes)
  {}

  /** A spelling is read as the encoding of its code point. */
  lemma {:induction false} ReadSpelling(validate: bool, s: seq<bv8>, at: nat, x: Spelling, before: seq<bv8>)
    requires ValidSpelling(x)
    requires at + |Spell(x)| <= |s| && s[at..at + |Spell(x)|] == Spell(x)
    ensures ParseFrom(validate, s, at, before) == ParseFrom(validate, s, at + |Spell(x)|, before + EncodeSafe(Meaning(x)))
  {
    GoesOnInside(s, at, Spell(x));
    if x.Literal? && !validate {
      LiteralIsOrdinary(x.codepoint);
      OrdinaryBytes(s, at, Spell(x), before);
    } else {
      ScanSpelling(validate, s, at, x);
      OneTurn(validate, s, at, before, |Spell(x)|, EncodeSafe(Meaning(x)));
    }
  }

  lemma {:induction false} ScanSpelling(validate: bool, s: seq<bv8>, at: nat, x: Spelling)
    requires ValidSpelling(x) && GoesOn(s, at, Spell(x)) && (x.Literal? ==> validate)
    ensures Scan(validate, s, at) == Copied(|Spell(x)|, EncodeSafe(Meaning(x)))
  {
    match x
    case Literal(codepoint) => ScanLiteralSpelling(s, at, codepoint);
    case Short(letter) => ScanShortSpelling(validate, s, at, letter);
    case Escaped(digits) => ScanEscapedSpelling(validate, s, at, digits);
    case Pair(lead, trail) => ScanPairSpelling(validate, s, at, lead, trail);
  }

  /** Every spelling of a text, up to its closing quote, is read as the UTF-8 encoding of what the
      text means, whether or not the encoding is checked. */
  lemma {:induction false} ReadText(validate: bool, s: seq<bv8>, at: nat, text: seq<Spelling>, before: seq<bv8>)
    requires ValidText(text)
    requires at <= |s| && SpellText(text) + [QUOTE] <= s[at..]
    ensures ParseFrom(validate, s, at, before) == Parsed(before + WriteText(text), at + |SpellText(text)| + 1)
    decreases text
  {
    if |text| == 0 {
      ReadQuote(validate, s, at, before);
      assert before + WriteText(text) == before;
    } else {
      var n, bytes := ReadFirst(validate, s, at, text, before);
      ValidRest(text);
      WriteOneMore(before, bytes, WriteText(text[1..]));
      ReadText(validate, s, at + n, text[1..], before + bytes);
    }
  }

  lemma {:induction false} ValidRest(text: seq<Spelling>)
    requires ValidText(text) && |text| > 0
    ensures ValidText(text[1..])
  {
    forall i | 0 <= i < |text[1..]| ensures ValidSpelling(text[1..][i]) {
      assert text[1..][i] == text[i + 1];
    }
  }

  lemma {:induction false} ReadFirst(validate: bool, s: seq<bv8>, at: nat, text: seq<Spelling>, before: seq<bv8>)
    returns (n: nat, bytes: seq<bv8>)
    requires ValidText(text) && |text| > 0
    requires at <= |s| && SpellText(text) + [QUOTE] <= s[at..]
    ensures at + n <= |s| && SpellText(text[1..]) + [QUOTE] <= s[at + n..]
    ensures |SpellText(text)| == n + |SpellText(text[1..])|
    ensures WriteText(text) == bytes + WriteText(text[1..])
    ensures ParseFrom(validate, s, at, before) == ParseFrom(validate, s, at + n, before + bytes)
  {
    n, bytes := |Spell(text[0])|, EncodeSafe(Meaning(text[0]));
    PrefixApart(s, at, Spell(text[0]), SpellText(text[1..]));
    ReadSpelling(validate, s, at, text[0], before);
  }

  lemma {:induction false} ReadQuote(validate: bool, s: seq<bv8>, at: nat, before: seq<bv8>)
    requires at <= |s| && [QUOTE] <= s[at..]
    ensures ParseFrom(validate, s, at, before) == Parsed(before, at + 1)
  {
    assert s[at..][0] == QUOTE;
  }

  lemma {:induction false} PrefixApart(s: seq<bv8>, at: nat, first: seq<bv8>, rest: seq<bv8>)
    requires at <= |s| && first + rest + [QUOTE] <= s[at..]
    ensures at + |first| <= |s| && s[at..at + |first|] == first
    ensures rest + [QUOTE] <= s[at + |first|..]
  {
    assert s[at..at + |first|] == s[at..][..|first|] == (first + rest + [QUOTE])[..|first|];
    assert s[at + |first|..] == s[at..][|first|..];
    assert (first + rest + [QUOTE])[|first|..] == rest + [QUOTE];
  }

  /** The bytes of a stream from a place on spell a text, and the result is its meaning. */
  predicate ReadAs(s: seq<bv8>, at: nat, before: seq<bv8>, text: seq<Spelling>, r: Parsed)
    requires ValidText(text)
  {
    && r.Parsed?
    && at < r.next <= |s|
    && s[at..r.next] == SpellText(text) + [QUOTE]
    && r.bytes == before + WriteText(text)
  }

  lemma {:induction false} NothingRead(s: seq<bv8>, at: nat, before: seq<bv8>)
    requires at <= |s| && Scan(true, s, at).Close?
    ensures ReadAs(s, at, before, [], ParseFrom(true, s, at, before))
  {
    assert s[at..at + 1] == [QUOTE];
    assert before + WriteText([]) == before;
  }

  /** With the encoding checked, nothing else is accepted. */
  lemma {:induction false} ParsedText(s: seq<bv8>, at: nat, before: seq<bv8>) returns (text: seq<Spelling>)
    requires at <= |s| && ParseFrom(true, s, at, before).Parsed?
    ensures ValidText(text) && ReadAs(s, at, before, text, ParseFrom(true, s, at, before))
    decreases |s| - at
  {
    if Scan(true, s, at).Close? {
      text := [];
      NothingRead(s, at, before);
    } else {
      var x, length, bytes := TurnRead(s, at, before);
      var rest := ParsedText(s, at + length, before + bytes);
      text := [x] + rest;
      TextOfTurn(s, at, ParseFrom(true, s, at + length, before + bytes), x, length, rest, text, before);
    }
  }

  lemma {:induction false} TurnRead(s: seq<bv8>, at: nat, before: seq<bv8>) returns (x: Spelling, length: nat,
        bytes: seq<bv8>)
    requires at <= |s| && ParseFrom(true, s, at, before).Parsed? && !Scan(true, s, at).Close?
    ensures ValidSpelling(x) && 0 < length <= |s| - at
    ensures s[at..at + length] == Spell(x) && bytes == EncodeSafe(Meaning(x))
    ensures ParseFrom(true, s, at, before) == ParseFrom(true, s, at + length, before + bytes)
  {
    ScanMovesOn(true, s, at);
    x := ScanRead(s, at);
    length, bytes := Scan(true, s, at).length, Scan(true, s, at).bytes;
    TakenInside(s, at, length);
    OneTurn(true, s, at, before, length, bytes);
  }

  lemma {:induction false} TextOfTurn(s: seq<bv8>, at: nat, r: Parsed, x: Spelling, length: nat, rest: seq<Spelling>,
                                      text: seq<Spelling>, before: seq<bv8>)
    requires ValidSpelling(x) && ValidText(rest) && text == [x] + rest
    requires at + length <= |s| && s[at..at + length] == Spell(x)
    requires ReadAs(s, at + length, before + EncodeSafe(Meaning(x)), rest, r)
    ensures ValidText(text) && ReadAs(s, at, before, text, r)
  {
    assert text[1..] == rest;
    SpellOneMore(s, at, r.next, length, Spell(x), SpellText(rest));
    WriteOneMore(before, EncodeSafe(Meaning(x)), WriteText(rest));
  }

  lemma {:induction false} SpellOneMore(s: seq<bv8>, at: nat, next: nat, length: nat, first: seq<bv8>, rest: seq<bv8>)
    requires at + length < next <= |s|
    requires s[at..at + length] == first && s[at + length..next] == rest + [QUOTE]
    ensures s[at..next] == first + rest + [QUOTE]
  {
    assert s[at..next] == s[at..at + length] + s[at + length..next];
  }

  lemma {:induction false} WriteOneMore(before: seq<bv8>, first: seq<bv8>, rest: seq<bv8>)
    ensures before + (first + rest) == before + first + rest
  {}

  // ----- Every text of scalar values can be written in escapes alone -----

  function DigitOf(n: bv32): bv8
    requires n < 16
  {
    if n < 10 then (n + 0x30) as bv8 else (n + 0x37) as bv8
  }

  function DigitsOf(unit: bv32): seq<bv8>
    requires unit <= 0xFFFF
  {
    [DigitOf((unit >> 12) & 0xF), DigitOf((unit >> 8) & 0xF), DigitOf((unit >> 4) & 0xF), DigitOf(unit & 0xF)]
  }

  lemma {:induction false} DigitBack(n: bv32)
    requires n < 16
    ensures HexValue(DigitOf(n)) == Some(n)
  {}

  lemma {:induction false} FourDigits(unit: bv32, a: bv32, b: bv32, c: bv32, d: bv32)
    requires unit <= 0xFFFF
    requires a == (unit >> 12) & 0xF && b == (unit >> 8) & 0xF && c == (unit >> 4) & 0xF && d == unit & 0xF
    ensures a < 16 && b < 16 && c < 16 && d < 16
    ensures AddDigit(AddDigit(AddDigit(AddDigit(0, a), b), c), d) == unit
  {}

  lemma {:induction false} DigitsBack(unit: bv32)
    requires unit <= 0xFFFF
    ensures IsUnit(DigitsOf(unit)) && Unit(DigitsOf(unit)) == unit
  {
    var a, b, c, d := (unit >> 12) & 0xF, (unit >> 8) & 0xF, (unit >> 4) & 0xF, unit & 0xF;
    FourDigits(unit, a, b, c, d);
    DigitBack(a);
    DigitBack(b);
    DigitBack(c);
    DigitBack(d);
    FourHex(DigitsOf(unit), a, b, c, d);
  }

  lemma {:induction false} FourHex(digits: seq<bv8>, a: bv32, b: bv32, c: bv32, d: bv32)
    requires |digits| == 4
    requires HexValue(digits[0]) == Some(a) && HexValue(digits[1]) == Some(b)
    requires HexValue(digits[2]) == Some(c) && HexValue(digits[3]) == Some(d)
    ensures Hex(digits, 0, 4) == Some(AddDigit(AddDigit(AddDigit(AddDigit(0, a), b), c), d))
  {
    var h0: bv32 := 0;
    var h1 := NextHex(digits, 0, h0, a);
    var h2 := NextHex(digits, 1, h1, b);
    var h3 := NextHex(digits, 2, h2, c);
    var h4 := NextHex(digits, 3, h3, d);
  }

  lemma {:induction false} NextHex(digits: seq<bv8>, n: nat, high: bv32, low: bv32) returns (all: bv32)
    requires n < |digits| && Hex(digits, 0, n) == Some(high) && HexValue(digits[n]) == Some(low)
    ensures all == AddDigit(high, low) && Hex(digits, 0, n + 1) == Some(all)
  {
    all := AddDigit(high, low);
    assert At(digits, 0 + (n + 1) - 1) == digits[n];
  }

  /** One escape for a code point of the basic plane, and the escapes of its surrogates for one
      above it. */
  function EscapeOf(codepoint: bv32): Spelling
    requires IsScalar(codepoint)
  {
    if codepoint <= 0xFFFF then Escaped(DigitsOf(codepoint))
    else
      var v := codepoint - 0x10000;
      Pair(DigitsOf(LeadUnit(v) as bv32), DigitsOf(TrailUnit(v) as bv32))
  }

  lemma {:induction false} EscapeMeansCodePoint(codepoint: bv32)
    requires IsScalar(codepoint)
    ensures ValidSpelling(EscapeOf(codepoint)) && Meaning(EscapeOf(codepoint)) == codepoint
  {
    if codepoint <= 0xFFFF {
      DigitsBack(codepoint);
    } else {
      var v := SupplementaryOffset(codepoint);
      EscapeOfSupplementary(codepoint, v, LeadUnit(v) as bv32, TrailUnit(v) as bv32);
    }
  }

  lemma {:induction false} EscapeOfSupplementary(codepoint: bv32, v: bv32, lead: bv32, trail: bv32)
    requires IsScalar(codepoint) && codepoint > 0xFFFF
    requires v == codepoint - 0x10000 && v <= 0xFFFFF && FromOffset(v) == codepoint
    requires lead == LeadUnit(v) as bv32 && trail == TrailUnit(v) as bv32
    ensures ValidSpelling(EscapeOf(codepoint)) && Meaning(EscapeOf(codepoint)) == codepoint
  {
    PairMeansCodePoint(v, lead, trail);
    assert EscapeOf(codepoint) == Pair(DigitsOf(lead), DigitsOf(trail));
  }

  lemma {:induction false} PairMeansCodePoint(v: bv32, lead: bv32, trail: bv32)
    requires v <= 0xFFFFF && lead == LeadUnit(v) as bv32 && trail == TrailUnit(v) as bv32
    ensures lead <= 0xFFFF && trail <= 0xFFFF
    ensures ValidSpelling(Pair(DigitsOf(lead), DigitsOf(trail))) && Meaning(Pair(DigitsOf(lead),
               DigitsOf(trail))) == FromOffset(v)
  {
    SurrogateValues(v, lead, trail);
    DigitsBack(lead);
    DigitsBack(trail);
  }

  lemma {:induction false} SurrogateValues(v: bv32, lead: bv32, trail: bv32)
    requires v <= 0xFFFFF && lead == LeadUnit(v) as bv32 && trail == TrailUnit(v) as bv32
    ensures IsLeadValue(lead) && IsTrailValue(trail) && lead <= 0xFFFF && trail <= 0xFFFF
    ensures Combine(lead, trail) == FromOffset(v)
  {
    UnitBits(v);
    SurrogateBits(v, lead, trail);
  }

  lemma {:induction false} UnitBits(v: bv32)
    requires v <= 0xFFFFF
    ensures LeadUnit(v) as bv32 == (v >> 10) | 0xD800 && TrailUnit(v) as bv32 == (v & 0x3FF) | 0xDC00
  {}

  lemma {:induction false} SurrogateBits(v: bv32, lead: bv32, trail: bv32)
    requires v <= 0xFFFFF && lead == (v >> 10) | 0xD800 && trail == (v & 0x3FF) | 0xDC00
    ensures PairOffset(lead, trail) == v && IsLeadValue(lead) && IsTrailValue(trail)
    ensures lead <= 0xFFFF && trail <= 0xFFFF
  {}

  function EscapesOf(text: seq<bv32>): (escapes: seq<Spelling>)
    requires forall i | 0 <= i < |text| :: IsScalar(text[i])
    ensures ValidText(escapes)
    decreases text
  {
    if |text| == 0 then [] else
    EscapeMeansCodePoint(text[0]);
    [EscapeOf(text[0])] + EscapesOf(text[1..])
  }

  function EncodeAll(text: seq<bv32>): seq<bv8>
    requires forall i | 0 <= i < |text| :: IsScalar(text[i])
    decreases text
  {
    if |text| == 0 then [] else EncodeSafe(text[0]) + EncodeAll(text[1..])
  }

  lemma {:induction false} EscapesMeanText(text: seq<bv32>)
    requires forall i | 0 <= i < |text| :: IsScalar(text[i])
    ensures WriteText(EscapesOf(text)) == EncodeAll(text)
    decreases text
  {
    if |text| > 0 {
      EscapeMeansCodePoint(text[0]);
      EscapesMeanText(text[1..]);
      assert EscapesOf(text)[1..] == EscapesOf(text[1..]);
      MeaningIsSmall(EscapeOf(text[0]));
    }
  }

  /** A text written in escapes, surrogate pairs above the basic plane, is read back as its UTF-8
      encoding. */
  lemma {:induction false} EscapedTextIsReadBack(validate: bool, text: seq<bv32>, rest: seq<bv8>)
    requires forall i | 0 <= i < |text| :: IsScalar(text[i])
    ensures
      var spelled := SpellText(EscapesOf(text));
      ParseFrom(validate, spelled + [QUOTE] + rest, 0, []) == Parsed(EncodeAll(text), |spelled| + 1)
  {
    EscapesMeanText(text);
    var spelled := SpellText(EscapesOf(text));
    var s := spelled + [QUOTE] + rest;
    assert s[0..] == s;
    ReadText(validate, s, 0, EscapesOf(text), []);
    assert [] + EncodeAll(text) == EncodeAll(text);
  }

  // ----- The operations on streams -----

  /** Four hexadecimal digits. On an error, the stream stands at the offending byte. */
  method ParseHex4(input: ByteSource) returns (ok: bool, codepoint: bv32)
    modifies input
    ensures ok == Hex(input.bytes, old(input.at), 4).Some?
    ensures ok ==> codepoint == Hex(input.bytes, old(input.at), 4).value && input.at == old(input.at) + 4
  {
    ghost var s, start := input.bytes, input.at;
    codepoint := 0;
    for i := 0 to 4
      invariant input.at == start + i
      invariant Hex(s, start, i) == Some(codepoint)
    {
      var c := input.Peek();
      var digit := HexValue(c);
      if digit.None? {
        HexStops(s, start, i + 1, 4);
        return false, 0;
      }
      codepoint := AddDigit(codepoint, digit.value);
      var _ := input.Take();
    }
    ok := true;
  }

  lemma {:induction false} HexStops(s: seq<bv8>, at: nat, m: nat, n: nat)
    requires m <= n && Hex(s, at, m).None?
    ensures Hex(s, at, n).None?
    decreases n
  {
    if m < n {
      HexStops(s, at, m, n - 1);
    }
  }

  method Consume(input: ByteSource, expected: bv8) returns (ok: bool)
    modifies input
    ensures ok == (At(input.bytes, old(input.at)) == expected)
    ensures input.at == old(input.at) + if ok then 1 else 0
  {
    var c := input.Peek();
    ok := c == expected;
    if ok {
      var _ := input.Take();
    }
  }

  /** The escape at the stream's place: its encoding is put, or its error and offset returned. */
  method ParseEscape(input: ByteSource, output: ByteSink) returns (error: Option<StringError>, escapeOffset: nat)
    requires At(input.bytes, input.at) == BACKSLASH
    modifies input, output
    ensures
      match ScanEscape(input.bytes, old(input.at))
      case Copied(length, bytes) =>
        error == None && input.at == old(input.at) + length && output.bytes == old(output.bytes) + bytes
      case Bad(e, offset) => error == Some(e) && escapeOffset == offset && output.bytes == old(output.bytes)
      case Close => false
  {
    escapeOffset := input.at;
    var _ := input.Take();
    var e := input.Peek();
    if Escape(e) != 0 {
      var _ := input.Take();
      output.Put(Escape(e));
      return None, escapeOffset;
    } else if e != U {
      return Some(EscapeInvalid), escapeOffset;
    }
    var _ := input.Take();
    var ok, codepoint := ParseHex4(input);
    if !ok {
      return Some(UnicodeEscapeInvalidHex), escapeOffset;
    }
    HexGrows(input.bytes, escapeOffset + 2);
    if IsLeadValue(codepoint) {
      ok := Consume(input, BACKSLASH);
      if ok {
        ok := Consume(input, U);
      }
      if !ok {
        return Some(UnicodeSurrogateInvalid), escapeOffset;
      }
      var codepoint2;
      ok, codepoint2 := ParseHex4(input);
      if !ok {
        return Some(UnicodeEscapeInvalidHex), escapeOffset;
      }
      if !IsTrailValue(codepoint2) {
        return Some(UnicodeSurrogateInvalid), escapeOffset;
      }
      CombineIsSmall(codepoint, codepoint2);
      codepoint := Combine(codepoint, codepoint2);
    }
    EncodeStream(output, codepoint);
    error := None;
  }

  /** One turn of the loop: whether the string is closed, or its error and offset. */
  method ParsePiece(validate: bool, input: ByteSource, output: ByteSink)
    returns (closed: bool, error: Option<StringError>, offset: nat)
    modifies input, output
    ensures
      match Scan(validate, input.bytes, old(input.at))
      case Close => closed && error == None && input.at == old(input.at) + 1 && output.bytes == old(output.bytes)
      case Copied(length, bytes) =>
        !closed && error == None && input.at == old(input.at) + length && output.bytes == old(output.bytes) + bytes
      case Bad(e, o) => !closed && error == Some(e) && offset == o
  {
    closed, error, offset := false, None, input.at;
    var c := input.Peek();
    if c == BACKSLASH {
      error, offset := ParseEscape(input, output);
    } else if c == QUOTE {
      var _ := input.Take();
      closed := true;
    } else if c < 0x20 {
      error := Some(if c == 0 then MissQuotationMark else InvalidEncoding);
    } else {
      OrdinaryIsLiteral(validate, input.bytes, input.at);
      var ok := CopyLiteral(validate, input, output);
      if !ok {
        error := Some(InvalidEncoding);
      }
    }
  }

  /** The string from after its opening quote: what it stands for goes to the output, with a NUL
      behind it. */
  method ParseStringToStream(validate: bool, input: ByteSource, output: ByteSink)
    returns (error: Option<StringError>, offset: nat)
    modifies input, output
    ensures
      match ParseFrom(validate, input.bytes, old(input.at), old(output.bytes))
      case Parsed(bytes, next) => error == None && input.at == next && output.bytes == bytes + [0]
      case Failed(e, o) => error == Some(e) && offset == o
  {
    ghost var s, all := input.bytes, ParseFrom(validate, input.bytes, input.at, output.bytes);
    while true
      invariant ParseFrom(validate, s, input.at, output.bytes) == all
      decreases |s| - input.at
    {
      ghost var at := input.at;
      var closed;
      closed, error, offset := ParsePiece(validate, input, output);
      if error != None {
        return;
      }
      if closed {
        output.Put(0);
        return;
      }
      ScanMovesOn(validate, s, at);
    }
  }

  /** One byte unchecked, or one checked sequence. */
  method CopyLiteral(validate: bool, input: ByteSource, output: ByteSink) returns (ok: bool)
    modifies input, output
    ensures
      match ScanLiteral(validate, input.bytes, old(input.at))
      case Copied(length, bytes) =>
        ok && input.at == old(input.at) + length && output.bytes == old(output.bytes) + bytes
      case _ => !ok
  {
    if validate {
      ok := Validate(input, output);
    } else {
      var c := input.Take();
      output.Put(c);
      ok := true;
    }
  }
}
