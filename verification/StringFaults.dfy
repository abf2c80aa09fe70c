/** What a string parse copies and what stops it, byte by byte, with and without encoding checks. */
module StringFaults {
  import opened Basics
  import opened Decimals
  import opened Utf8
  import opened Utf16
  import opened JsonString

  // ----- Hexadecimal digits -----

  predicate IsHex(c: bv8) {
    0x30 <= c <= 0x39 || 0x41 <= c <= 0x46 || 0x61 <= c <= 0x66
  }

  function Nibble(c: bv8): bv32 {
    if c <= 0x39 then c as bv32 - 0x30 else if c <= 0x46 then c as bv32 - 0x41 + 10 else c as bv32 - 0x61 + 10
  }

  predicate FourHex(s: seq<bv8>, at: nat) {
    IsHex(At(s, at)) && IsHex(At(s, at + 1)) && IsHex(At(s, at + 2)) && IsHex(At(s, at + 3))
  }

  function UnitAt(s: seq<bv8>, at: nat): bv32 {
    Join(Nibble(At(s, at)), Nibble(At(s, at + 1)), Nibble(At(s, at + 2)), Nibble(At(s, at + 3)))
  }

  function Join(a: bv32, b: bv32, c: bv32, d: bv32): bv32 {
    (a << 12) + (b << 8) + (c << 4) + d
  }

  predicate IsHigh(unit: bv32) { 0xD800 <= unit <= 0xDBFF }

  predicate IsLow(unit: bv32) { 0xDC00 <= unit <= 0xDFFF }

  function PairValue(high: bv32, low: bv32): bv32 {
    0x10000 + ((high - 0xD800) << 10) + (low - 0xDC00)
  }

  // ----- What is copied -----

  /** The escape letters, and what they stand for. */
  predicate LetterFor(letter: bv8, c: bv8) {
    || (letter == 0x22 && c == 0x22) || (letter == 0x2F && c == 0x2F) || (letter == 0x5C && c == 0x5C)
    || (letter == 0x62 && c == 0x08) || (letter == 0x66 && c == 0x0C) || (letter == 0x6E && c == 0x0A)
    || (letter == 0x72 && c == 0x0D) || (letter == 0x74 && c == 0x09)
  }

  predicate IsLetter(letter: bv8) {
    letter == 0x22 || letter == 0x2F || letter == 0x5C || letter == 0x62
    || letter == 0x66 || letter == 0x6E || letter == 0x72 || letter == 0x74
  }

  /** Neither a control character, a quote nor a backslash. */
  predicate IsPlainByte(c: bv8) { 0x20 <= c && c != 0x22 && c != 0x5C }

  predicate UnicodeEscape(s: seq<bv8>, at: nat) {
    At(s, at) == 0x5C && At(s, at + 1) == 0x75
  }

  predicate PutsLetter(s: seq<bv8>, at: nat, length: nat, bytes: seq<bv8>) {
    At(s, at) == 0x5C && length == 2 && |bytes| == 1 && LetterFor(At(s, at + 1), bytes[0])
  }

  predicate PutsUnit(s: seq<bv8>, at: nat, length: nat, bytes: seq<bv8>) {
    && UnicodeEscape(s, at) && length == 6 && FourHex(s, at + 2) && !IsHigh(UnitAt(s, at + 2))
    && bytes == EncodeSafe(UnitAt(s, at + 2))
  }

  predicate PutsPair(s: seq<bv8>, at: nat, length: nat, bytes: seq<bv8>) {
    && UnicodeEscape(s, at) && length == 12 && FourHex(s, at + 2) && IsHigh(UnitAt(s, at + 2))
    && UnicodeEscape(s, at + 6) && FourHex(s, at + 8) && IsLow(UnitAt(s, at + 8))
    && bytes == EncodeSafe(PairValue(UnitAt(s, at + 2), UnitAt(s, at + 8)))
  }

  /** Bytes stand for themselves, one by one if the encoding is not checked, and by well-formed sequences
      if it is. */
  predicate PutsItself(validate: bool, s: seq<bv8>, at: nat, length: nat, bytes: seq<bv8>) {
    IsPlainByte(At(s, at)) && bytes == Taken(s, at, length) && if validate then Utf8Char(bytes) else length == 1
  }

  /** What the next piece of a string puts out, and how long it is. */
  predicate Puts(validate: bool, s: seq<bv8>, at: nat, length: nat, bytes: seq<bv8>) {
    || PutsLetter(s, at, length, bytes)
    || PutsUnit(s, at, length, bytes)
    || PutsPair(s, at, length, bytes)
    || PutsItself(validate, s, at, length, bytes)
  }

  /** A well-formed sequence begins at a place. */
  predicate CharStands(s: seq<bv8>, at: nat) {
    Utf8Char(Taken(s, at, 1)) || Utf8Char(Taken(s, at, 2)) || Utf8Char(Taken(s, at, 3)) || Utf8Char(Taken(s, at, 4))
  }

  /** What stops a string at a place, and the error that names it. */
  predicate Stops(validate: bool, s: seq<bv8>, at: nat, error: StringError) {
    match error
    case MissQuotationMark => At(s, at) == 0
    case InvalidEncoding => 0 < At(s, at) < 0x20 || (validate && IsPlainByte(At(s, at)) && !CharStands(s, at))
    case EscapeInvalid => At(s, at) == 0x5C && !IsLetter(At(s, at + 1)) && At(s, at + 1) != 0x75
    case UnicodeEscapeInvalidHex =>
      UnicodeEscape(s, at) &&
      (!FourHex(s, at + 2) || (IsHigh(UnitAt(s, at + 2)) && UnicodeEscape(s, at + 6) && !FourHex(s, at + 8)))
    case UnicodeSurrogateInvalid =>
      UnicodeEscape(s, at) && FourHex(s, at + 2) && IsHigh(UnitAt(s, at + 2)) &&
      (!UnicodeEscape(s, at + 6) || (FourHex(s, at + 8) && !IsLow(UnitAt(s, at + 8))))
  }

  // ----- One turn of the loop -----

  lemma {:induction false} NibbleIsDigit(c: bv8)
    ensures IsHex(c) <==> HexValue(c).Some?
    ensures IsHex(c) ==> HexValue(c) == Some(Nibble(c)) && Nibble(c) < 16
  {}

  lemma {:induction false} DigitsJoin(a: bv32, b: bv32, c: bv32, d: bv32)
    requires a < 16 && b < 16 && c < 16 && d < 16
    ensures AddDigit(AddDigit(AddDigit(AddDigit(0, a), b), c), d) == Join(a, b, c, d)
  {}

  lemma {:induction false} HexIsUnit(s: seq<bv8>, at: nat)
    ensures Hex(s, at, 4).Some? <==> FourHex(s, at)
    ensures FourHex(s, at) ==> Hex(s, at, 4) == Some(UnitAt(s, at))
  {
    var a, b, c, d := At(s, at), At(s, at + 1), At(s, at + 2), At(s, at + 3);
    NibbleIsDigit(a);
    NibbleIsDigit(b);
    NibbleIsDigit(c);
    NibbleIsDigit(d);
    HexOfFour(s, at, a, b, c, d);
    if FourHex(s, at) {
      DigitsJoin(Nibble(a), Nibble(b), Nibble(c), Nibble(d));
    }
  }

  lemma {:induction false} HexOfFour(s: seq<bv8>, at: nat, a: bv8, b: bv8, c: bv8, d: bv8)
    requires a == At(s, at) && b == At(s, at + 1) && c == At(s, at + 2) && d == At(s, at + 3)
    ensures
      var (p, (q, (u, v))) := (HexValue(a), (HexValue(b), (HexValue(c), HexValue(d))));
      Hex(s, at, 4) ==
      if p.None? || q.None? || u.None? || v.None? then None
      else Some(AddDigit(AddDigit(AddDigit(AddDigit(0, p.value), q.value), u.value), v.value))
  {
    assert Hex(s, at, 0) == Some(0);
    assert Hex(s, at, 2) == Hex(s, at, 1 + 1);
  }

  lemma {:induction false} LetterIsEscape(letter: bv8, c: bv8)
    ensures LetterFor(letter, c) <==> c == Escape(letter) != 0
    ensures IsLetter(letter) <==> Escape(letter) != 0
  {}

  lemma {:induction false} PairIsCombined(high: bv32, low: bv32)
    requires IsHigh(high) && IsLow(low)
    ensures Combine(high, low) == PairValue(high, low)
  {}

  /** A turn of the loop: the string is closed, or the next piece is put out, or the error is named. */
  predicate TurnIs(validate: bool, s: seq<bv8>, at: nat, piece: Piece) {
    match piece
    case Close => At(s, at) == 0x22
    case Copied(length, bytes) => Puts(validate, s, at, length, bytes)
    case Bad(error, offset) => offset == at && Stops(validate, s, at, error)
  }

  lemma {:induction false} LetterTurn(validate: bool, s: seq<bv8>, at: nat, e: bv8)
    requires At(s, at) == 0x5C && e == At(s, at + 1) && e != 0x75
    ensures TurnIs(validate, s, at, ScanEscape(s, at))
  {
    LetterIsEscape(e, Escape(e));
    if IsLetter(e) {
      assert PutsLetter(s, at, 2, [Escape(e)]);
    } else {
      assert Stops(validate, s, at, EscapeInvalid);
    }
  }

  lemma {:induction false} UnitTurn(validate: bool, s: seq<bv8>, at: nat)
    requires UnicodeEscape(s, at)
    ensures TurnIs(validate, s, at, ScanEscape(s, at))
  {
    LetterIsEscape(0x75, Escape(0x75));
    HexIsUnit(s, at + 2);
    if !FourHex(s, at + 2) {
      assert Stops(validate, s, at, UnicodeEscapeInvalidHex);
    } else if IsHigh(UnitAt(s, at + 2)) {
      PairTurn(validate, s, at, UnitAt(s, at + 2));
    } else {
      assert PutsUnit(s, at, 6, EncodeSafe(UnitAt(s, at + 2)));
    }
  }

  lemma {:induction false} PairTurn(validate: bool, s: seq<bv8>, at: nat, high: bv32)
    requires UnicodeEscape(s, at) && FourHex(s, at + 2) && high == UnitAt(s, at + 2) && IsHigh(high)
    ensures TurnIs(validate, s, at, ScanTrail(s, at, high))
  {
    HexIsUnit(s, at + 8);
    if !UnicodeEscape(s, at + 6) {
      assert Stops(validate, s, at, UnicodeSurrogateInvalid);
    } else if !FourHex(s, at + 8) {
      assert Stops(validate, s, at, UnicodeEscapeInvalidHex);
    } else if !IsLow(UnitAt(s, at + 8)) {
      assert Stops(validate, s, at, UnicodeSurrogateInvalid);
    } else {
      var low := UnitAt(s, at + 8);
      PairIsCombined(high, low);
      assert PutsPair(s, at, 12, EncodeSafe(PairValue(high, low)));
    }
  }

  lemma {:induction false} PlainTurn(validate: bool, s: seq<bv8>, at: nat)
    requires IsPlainByte(At(s, at))
    ensures TurnIs(validate, s, at, ScanLiteral(validate, s, at))
  {
    if validate {
      DecodeAcceptsWellFormed(s, at);
      DecodeTakes(s, at);
      SpanIsSmall(At(s, at));
      CharSpans(s, at);
    } else {
      assert Taken(s, at, 1) == [At(s, at)];
      assert PutsItself(validate, s, at, 1, [At(s, at)]);
    }
  }

  lemma {:induction false} SpanIsSmall(lead: bv8)
    ensures 1 <= Span(lead) <= 4
  {}

  /** A well-formed sequence is as long as the decoder would take it. */
  lemma {:induction false} CharSpans(s: seq<bv8>, at: nat)
    ensures forall n: nat | Utf8Char(Taken(s, at, n)) :: n == Span(At(s, at))
  {
    forall n: nat | Utf8Char(Taken(s, at, n)) ensures n == Span(At(s, at)) {
      WellFormedIsEncoding(Taken(s, at, n));
      assert Taken(s, at, n)[0] == At(s, at);
    }
  }

  lemma {:induction false} ScanTurns(validate: bool, s: seq<bv8>, at: nat)
    ensures TurnIs(validate, s, at, Scan(validate, s, at))
  {
    var c := At(s, at);
    if c == 0x5C && At(s, at + 1) == 0x75 {
      UnitTurn(validate, s, at);
    } else if c == 0x5C {
      LetterTurn(validate, s, at, At(s, at + 1));
    } else if IsPlainByte(c) {
      OrdinaryIsLiteral(validate, s, at);
      PlainTurn(validate, s, at);
    }
  }

  /** There is only one way to take a turn. */
  lemma {:induction false} TurnsOneWay(validate: bool, s: seq<bv8>, at: nat, piece: Piece, other: Piece)
    requires TurnIs(validate, s, at, piece) && TurnIs(validate, s, at, other)
    ensures piece == other
  {
    CharSpans(s, at);
    LetterIsEscape(At(s, at + 1), Escape(At(s, at + 1)));
    if piece.Copied? && other.Copied? && PutsLetter(s, at, piece.length, piece.bytes) {
      LetterIsEscape(At(s, at + 1), piece.bytes[0]);
      LetterIsEscape(At(s, at + 1), other.bytes[0]);
    }
  }

  // ----- The whole string -----

  /** Pieces follow one another from a place up to another, and put out bytes altogether. */
  predicate Follow(validate: bool, s: seq<bv8>, at: nat, pieces: seq<Piece>, end: nat, bytes: seq<bv8>)
    decreases pieces
  {
    if |pieces| == 0 then end == at && bytes == []
    else
      && pieces[0].Copied?
      && TurnIs(validate, s, at, pieces[0])
      && pieces[0].bytes <= bytes
      && Follow(validate, s, at + pieces[0].length, pieces[1..], end, bytes[|pieces[0].bytes|..])
  }

  /** A string ends at a place: with a quote behind what was put out, or with the error that stops it. */
  predicate Ends(validate: bool, s: seq<bv8>, end: nat, bytes: seq<bv8>, r: Parsed) {
    match r
    case Parsed(all, next) => At(s, end) == 0x22 && next == end + 1 && all == bytes
    case Failed(error, offset) => offset == end && Stops(validate, s, end, error)
  }

  lemma {:induction false} OnePieceMore(validate: bool, s: seq<bv8>, at: nat, piece: Piece, pieces: seq<Piece>, end: nat,
                                        bytes: seq<bv8>)
    requires piece.Copied? && TurnIs(validate, s, at, piece)
    requires Follow(validate, s, at + piece.length, pieces, end, bytes)
    ensures Follow(validate, s, at, [piece] + pieces, end, piece.bytes + bytes)
  {
    assert ([piece] + pieces)[1..] == pieces;
    assert (piece.bytes + bytes)[|piece.bytes|..] == bytes;
  }

  /** A parse takes pieces up to a place where it ends, and ends there as its result says. */
  predicate Explained(validate: bool, s: seq<bv8>, at: nat, before: seq<bv8>, r: Parsed,
                      pieces: seq<Piece>, end: nat, bytes: seq<bv8>) {
    Follow(validate, s, at, pieces, end, bytes) && Ends(validate, s, end, before + bytes, r)
  }

  lemma {:induction false} EndsHere(validate: bool, s: seq<bv8>, at: nat, before: seq<bv8>)
    requires !Scan(validate, s, at).Copied?
    ensures Explained(validate, s, at, before, ParseFrom(validate, s, at, before), [], at, [])
  {
    ScanTurns(validate, s, at);
    assert before + [] == before;
  }

  lemma {:induction false} EndsLater(validate: bool, s: seq<bv8>, at: nat, before: seq<bv8>, r: Parsed, piece: Piece,
                                     pieces: seq<Piece>, end: nat, bytes: seq<bv8>)
    requires piece.Copied? && TurnIs(validate, s, at, piece)
    requires Explained(validate, s, at + piece.length, before + piece.bytes, r, pieces, end, bytes)
    ensures Explained(validate, s, at, before, r, [piece] + pieces, end, piece.bytes + bytes)
  {
    OnePieceMore(validate, s, at, piece, pieces, end, bytes);
    WriteOneMore(before, piece.bytes, bytes);
  }

  /** Every parse can be explained so, with the encoding checked or not. */
  lemma {:induction false} StringEnds(validate: bool, s: seq<bv8>, at: nat, before: seq<bv8>)
    returns (pieces: seq<Piece>, end: nat, bytes: seq<bv8>)
    ensures Explained(validate, s, at, before, ParseFrom(validate, s, at, before), pieces, end, bytes)
    decreases |s| - at
  {
    var piece := Scan(validate, s, at);
    if piece.Copied? {
      ScanTurns(validate, s, at);
      ScanMovesOn(validate, s, at);
      pieces, end, bytes := StringEnds(validate, s, at + piece.length, before + piece.bytes);
      EndsLater(validate, s, at, before, ParseFrom(validate, s, at, before), piece, pieces, end, bytes);
      pieces, bytes := [piece] + pieces, piece.bytes + bytes;
    } else {
      EndsHere(validate, s, at, before);
      pieces, end, bytes := [], at, [];
    }
  }

  lemma {:induction false} DecidedHere(validate: bool, s: seq<bv8>, at: nat, before: seq<bv8>, r: Parsed)
    requires Ends(validate, s, at, before, r)
    ensures ParseFrom(validate, s, at, before) == r
  {
    ScanTurns(validate, s, at);
    TurnsOneWay(validate, s, at, Scan(validate, s, at), if r.Parsed? then Close else Bad(r.error, r.offset));
  }

  lemma {:induction false} DecidedLater(validate: bool, s: seq<bv8>, at: nat, before: seq<bv8>, piece: Piece)
    requires piece.Copied? && TurnIs(validate, s, at, piece)
    ensures ParseFrom(validate, s, at, before) == ParseFrom(validate, s, at + piece.length, before + piece.bytes)
  {
    ScanTurns(validate, s, at);
    TurnsOneWay(validate, s, at, Scan(validate, s, at), piece);
    OneTurn(validate, s, at, before, piece.length, piece.bytes);
  }

  /** And whatever can be explained so is the result of the parse. */
  lemma {:induction false} EndsDecide(validate: bool, s: seq<bv8>, at: nat, before: seq<bv8>, r: Parsed,
                                      pieces: seq<Piece>, end: nat, bytes: seq<bv8>)
    requires Explained(validate, s, at, before, r, pieces, end, bytes)
    ensures ParseFrom(validate, s, at, before) == r
    decreases pieces
  {
    if |pieces| == 0 {
      assert before + bytes == before;
      DecidedHere(validate, s, at, before, r);
    } else {
      var piece, rest := pieces[0], bytes[|pieces[0].bytes|..];
      DecidedLater(validate, s, at, before, piece);
      assert bytes == piece.bytes + rest;
      WriteOneMore(before, piece.bytes, rest);
      EndsDecide(validate, s, at + piece.length, before + piece.bytes, r, pieces[1..], end, rest);
    }
  }
}
