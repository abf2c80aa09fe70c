/** Integer literals: read without wrap-around, reported in the narrowest type, and kept in the
    document with exact type flags. */
module Numbers {
  import opened Basics
  import opened Decimals
  import opened Utf8

  newtype uint32 = x: int | 0 <= x < 0x1_0000_0000
  newtype uint64 = x: int | 0 <= x < 0x1_0000_0000_0000_0000

  const MINUS: bv8 := 0x2D

  // ----- What a literal denotes -----

  /** The end of the digits that start at a place. */
  function DigitsEnd(s: seq<bv8>, at: nat): (end: nat)
    ensures at <= end
    ensures forall i | at <= i < end :: IsDigit(At(s, i))
    ensures !IsDigit(At(s, end))
    decreases |s| - at
  {
    if IsDigit(At(s, at)) then DigitsEnd(s, at + 1) else at
  }

  /** The decimal value of the digits between two places. */
  function Value(s: seq<bv8>, from: nat, stop: nat): (v: int)
    requires from <= stop && forall i | from <= i < stop :: IsDigit(At(s, i))
    ensures v >= 0
  {
    if from == stop then 0 else 10 * Value(s, from, stop - 1) + Digit(At(s, stop - 1))
  }

  lemma {:induction false} ValueGrows(s: seq<bv8>, from: nat, mid: nat, stop: nat)
    requires from <= mid <= stop && forall i | from <= i < stop :: IsDigit(At(s, i))
    ensures Value(s, from, mid) <= Value(s, from, stop)
    decreases stop
  {
    if mid < stop {
      ValueGrows(s, from, mid, stop - 1);
    }
  }

  // How a number is reported: by the handler method for its type, with its value. Beyond are the
  // integers that no such type holds: they are read as doubles, or are errors where no double is
  // that large. Fractional are the numbers with a fraction or an exponent.
  datatype Reported =
    | Int(value: int)
    | Uint(value: int)
    | Int64(value: int)
    | Uint64(value: int)
    | Beyond
    | Fractional
    | Invalid

  /** The narrowest type that holds an integer literal, by its sign and magnitude. */
  function Narrowest(minus: bool, magnitude: int): Reported {
    if minus then
      if magnitude <= 0x8000_0000 then Int(-magnitude)
      else if magnitude <= 0x8000_0000_0000_0000 then Int64(-magnitude)
      else Beyond
    else
      if magnitude < 0x1_0000_0000 then Uint(magnitude)
      else if magnitude < 0x1_0000_0000_0000_0000 then Uint64(magnitude)
      else Beyond
  }

  /** A number from a place on: its integer part, and whether a fraction or an exponent follows. */
  function NumberAt(s: seq<bv8>, at: nat): Reported {
    var minus := At(s, at) == MINUS;
    var start := if minus then at + 1 else at;
    if !IsDigit(At(s, start)) then Invalid
    else
      var end := IntegerEnd(s, start);
      if GoesOn(At(s, end)) then Fractional else Narrowest(minus, Value(s, start, end))
  }

  /** A zero stands by itself; other digits go on as far as they can. */
  function IntegerEnd(s: seq<bv8>, start: nat): (end: nat)
    requires IsDigit(At(s, start))
    ensures start < end && forall i | start <= i < end :: IsDigit(At(s, i))
  {
    if At(s, start) == 0x30 then start + 1 else DigitsEnd(s, start)
  }

  /** A point or an exponent. */
  predicate GoesOn(c: bv8) { c == 0x2E || c == 0x65 || c == 0x45 }

  // ----- What a literal is reported as, by its bytes -----

  lemma {:induction false} ValueOfNumeral(s: Bytes, start: nat, n: nat)
    requires start + |Numeral(n)| <= |s| && s[start..start + |Numeral(n)|] == Numeral(n)
    ensures forall i | start <= i < start + |Numeral(n)| :: IsDigit(At(s, i)) && At(s, i) == Numeral(n)[i - start]
    ensures Value(s, start, start + |Numeral(n)|) == n
    decreases n
  {
    NumeralIsDigits(n);
    BytesStand(s, start, Numeral(n));
    if n < 10 {
      LetterIsDigit(n);
      assert Value(s, start, start) == 0;
    } else {
      LetterIsDigit(n % 10);
      FrontStands(s, start, Numeral(n / 10), Letter(n % 10));
      ValueOfNumeral(s, start, n / 10);
      LastDigit(s, start, start + |Numeral(n / 10)|, n / 10, n % 10);
    }
  }

  lemma {:induction false} BytesStand(s: Bytes, start: nat, bytes: Bytes)
    requires start + |bytes| <= |s| && s[start..start + |bytes|] == bytes
    ensures forall i | start <= i < start + |bytes| :: At(s, i) == bytes[i - start]
  {
    forall i | start <= i < start + |bytes| ensures At(s, i) == bytes[i - start] {
      assert s[start..start + |bytes|][i - start] == s[i];
    }
  }

  lemma {:induction false} FrontStands(s: Bytes, start: nat, front: Bytes, c: bv8)
    requires start + |front| + 1 <= |s| && s[start..start + |front| + 1] == front + [c]
    ensures s[start..start + |front|] == front && At(s, start + |front|) == c
  {
    assert s[start..start + |front|] == s[start..start + |front| + 1][..|front|];
    assert s[start..start + |front| + 1][|front|] == c;
  }

  lemma {:induction false} LastDigit(s: Bytes, start: nat, end: nat, v: nat, d: nat)
    requires start <= end && (forall i | start <= i <= end :: IsDigit(At(s, i)))
    requires Value(s, start, end) == v && Digit(At(s, end)) == d
    ensures Value(s, start, end + 1) == 10 * v + d
  {}

  lemma {:induction false} DigitsEndAt(s: Bytes, at: nat, end: nat)
    requires at <= end && !IsDigit(At(s, end)) && forall i | at <= i < end :: IsDigit(At(s, i))
    ensures DigitsEnd(s, at) == end
    decreases end - at
  {
    if at < end {
      DigitsEndAt(s, at + 1, end);
    }
  }

  /** Digits without leading zeros are the numeral of their value. */
  lemma {:induction false} DigitsAreNumeral(s: Bytes, start: nat, end: nat)
    requires start < end <= |s| && forall i | start <= i < end :: IsDigit(At(s, i))
    requires end == start + 1 || At(s, start) != 0x30
    ensures s[start..end] == Numeral(Value(s, start, end))
    ensures At(s, start) == 0x30 <==> Value(s, start, end) == 0
    decreases end
  {
    var c := At(s, end - 1);
    DigitLetter(c);
    assert s[start..end] == s[start..end - 1] + [c];
    if end == start + 1 {
      assert Value(s, start, start) == 0;
      assert s[start..end - 1] == [];
    } else {
      DigitsAreNumeral(s, start, end - 1);
      OneDigitMore(Value(s, start, end - 1), Digit(c));
    }
  }

  lemma {:induction false} OneDigitMore(v: nat, d: nat)
    requires v > 0 && d < 10
    ensures Numeral(10 * v + d) == Numeral(v) + [Letter(d)]
  {
    assert (10 * v + d) / 10 == v && (10 * v + d) % 10 == d;
  }

  lemma {:induction false} DigitLetter(c: bv8)
    requires IsDigit(c)
    ensures Letter(Digit(c)) == c && (Digit(c) == 0 <==> c == 0x30)
  {
    var x := c - 0x30;
    assert x <= 9;
    assert c == x + 0x30;
    assert Digit(c) == x as nat;
    NibbleLetter(x);
  }

  lemma {:induction false} NibbleLetter(x: bv8)
    requires x <= 9
    ensures Letter(x as nat) == x + 0x30 && (x as nat == 0 <==> x == 0)
  {}

  /** An optional minus and a numeral stand at a place. After any numeral but 0 comes no digit. */
  predicate LiteralStands(s: Bytes, at: nat, minus: bool, n: nat) {
    var text := (if minus then [0x2D] else []) + Numeral(n);
    && at + |text| <= |s| && s[at..at + |text|] == text
    && (n == 0 || !(0x30 <= At(s, at + |text|) <= 0x39))
  }

  /** The byte behind a literal. */
  function ByteAfter(s: Bytes, at: nat, minus: bool, n: nat): bv8 {
    At(s, at + (if minus then 1 else 0) + |Numeral(n)|)
  }

  /** An integer literal, by its sign and numeral, and by what follows: a point or the letter of an
      exponent makes it no integer; otherwise it has exactly its value, in the narrowest type. */
  predicate ReportedAs(minus: bool, n: nat, next: bv8, r: Reported) {
    if next == 0x2E || next == 0x65 || next == 0x45 then r == Fractional
    else if minus then
      if n <= 0x8000_0000 then r == Int(0 - n) else if n <= 0x8000_0000_0000_0000 then r == Int64(0 - n) else r == Beyond
    else
      if n <= 0xFFFF_FFFF then r == Uint(n) else if n <= 0xFFFF_FFFF_FFFF_FFFF then r == Uint64(n) else r == Beyond
  }

  lemma {:induction false} StandingLiteral(s: Bytes, at: nat, minus: bool, n: nat) returns (start: nat, end: nat)
    requires LiteralStands(s, at, minus, n)
    ensures (At(s, at) == MINUS) == minus && start == at + (if minus then 1 else 0) && end == start + |Numeral(n)|
    ensures IsDigit(At(s, start)) && IntegerEnd(s, start) == end && Value(s, start, end) == n
  {
    start := at + if minus then 1 else 0;
    end := start + |Numeral(n)|;
    LiteralParts(s, at, minus, Numeral(n), start, end);
    StandingNumeral(s, start, n, end);
    NumeralIsDigits(n);
    assert At(s, start) == Numeral(n)[0];
  }

  lemma {:induction false} LiteralParts(s: Bytes, at: nat, minus: bool, digits: Bytes, start: nat, end: nat)
    requires start == at + (if minus then 1 else 0) && end == start + |digits| <= |s|
    requires s[at..end] == (if minus then [0x2D] else []) + digits
    ensures s[start..end] == digits && (minus ==> At(s, at) == 0x2D)
  {
    assert s[start..end] == s[at..end][start - at..];
    assert minus ==> s[at..end][0] == 0x2D;
  }

  lemma {:induction false} StandingNumeral(s: Bytes, start: nat, n: nat, end: nat)
    requires end == start + |Numeral(n)| <= |s| && s[start..end] == Numeral(n)
    requires n == 0 || !IsDigit(At(s, end))
    ensures At(s, start) == Numeral(n)[0] && IsDigit(At(s, start))
    ensures IntegerEnd(s, start) == end && Value(s, start, end) == n
  {
    ValueOfNumeral(s, start, n);
    NumeralIsDigits(n);
    if n != 0 {
      DigitsEndAt(s, start, end);
    }
  }

  /** Every literal is reported as it should be. */
  lemma {:induction false} LiteralIsReported(s: Bytes, at: nat, minus: bool, n: nat)
    requires LiteralStands(s, at, minus, n)
    ensures ReportedAs(minus, n, ByteAfter(s, at, minus, n), NumberAt(s, at))
  {
    var start, end := StandingLiteral(s, at, minus, n);
  }

  /** Wherever a digit stands, perhaps behind a minus, there is a literal; elsewhere there is no number. */
  lemma {:induction false} LiteralIsFound(s: Bytes, at: nat) returns (n: nat)
    ensures
      var minus := At(s, at) == 0x2D;
      var first := At(s, if minus then at + 1 else at);
      if 0x30 <= first <= 0x39 then LiteralStands(s, at, minus, n) else NumberAt(s, at) == Invalid
  {
    n := 0;
    var minus := At(s, at) == 0x2D;
    var start := if minus then at + 1 else at;
    if IsDigit(At(s, start)) {
      var end := IntegerEnd(s, start);
      assert At(s, end - 1) != 0;
      DigitsAreNumeral(s, start, end);
      n := Value(s, start, end);
      BehindSign(s, at, minus, start, end);
    }
  }

  lemma {:induction false} BehindSign(s: Bytes, at: nat, minus: bool, start: nat, end: nat)
    requires start == (if minus then at + 1 else at) < end <= |s| && (minus ==> s[at] == 0x2D)
    ensures s[at..end] == (if minus then [0x2D] else []) + s[start..end]
  {}

  // ----- Reading a literal -----

  /** static_cast<int32_t>(~i + 1): complement, increment modulo 2^32, and the top bit as sign. */
  function Negate32(i: uint32): int {
    var bits := (0xFFFF_FFFF - i as int + 1) % 0x1_0000_0000;
    if bits < 0x8000_0000 then bits else bits - 0x1_0000_0000
  }

  function Negate64(i: uint64): int {
    var bits := (0xFFFF_FFFF_FFFF_FFFF - i as int + 1) % 0x1_0000_0000_0000_0000;
    if bits < 0x8000_0000_0000_0000 then bits else bits - 0x1_0000_0000_0000_0000
  }

  lemma {:induction false} NegateIsExact(i: uint32, j: uint64)
    ensures i <= 0x8000_0000 ==> Negate32(i) == -(i as int)
    ensures j <= 0x8000_0000_0000_0000 ==> Negate64(j) == -(j as int)
  {}

  /** The 32-bit loop. It stops before a digit that would not fit: past 2^31 with a minus, past
      2^32 - 1 without. */
  method Digits32(input: ByteSource, minus: bool, ghost start: nat, first: uint32) returns (i: uint32, use64bit: bool)
    requires input.at == start + 1 && IsDigit(At(input.bytes, start)) && first as int == Digit(At(input.bytes, start))
    modifies input
    ensures start < input.at <= DigitsEnd(input.bytes, start)
    ensures i as int == Value(input.bytes, start, input.at)
    ensures minus ==> i <= 0x8000_0000
    ensures !use64bit ==> input.at == DigitsEnd(input.bytes, start)
    ensures use64bit ==> input.at < DigitsEnd(input.bytes, start)
    ensures use64bit ==> 10 * i as int + Digit(At(input.bytes, input.at)) > if minus then 0x8000_0000 else 0xFFFF_FFFF
  {
    ghost var s, end := input.bytes, DigitsEnd(input.bytes, start);
    i, use64bit := first, false;
    assert DigitsEnd(s, start) == DigitsEnd(s, start + 1);
    var limit: uint32, last: bv8 := if minus then 214748364 else 429496729, if minus then 0x38 else 0x35;
    var c := input.Peek();
    while IsDigit(c)
      invariant c == At(s, input.at)
      invariant start < input.at <= end == DigitsEnd(s, input.at)
      invariant i as int == Value(s, start, input.at)
      invariant minus ==> i <= 0x8000_0000
      decreases end - input.at
    {
      DigitOrder(c, last);
      if i >= limit && (i != limit || c > last) {
        return i, true;
      }
      i := i * 10 + Digit(c) as uint32;
      var _ := input.Take();
      c := input.Peek();
    }
  }

  lemma {:induction false} DigitOrder(c: bv8, last: bv8)
    requires IsDigit(c) && IsDigit(last)
    ensures c > last <==> Digit(c) > Digit(last)
    ensures last == 0x38 ==> Digit(last) == 8
    ensures last == 0x35 ==> Digit(last) == 5
  {
    assert c > last <==> c - 0x30 > last - 0x30;
  }

  /** The 64-bit loop, which goes on where the 32-bit one stopped. */
  method Digits64(input: ByteSource, minus: bool, ghost start: nat, first: uint64) returns (i64: uint64, useDouble: bool)
    requires start < input.at <= DigitsEnd(input.bytes, start)
    requires first as int == Value(input.bytes, start, input.at)
    requires minus ==> first <= 0x8000_0000_0000_0000
    modifies input
    ensures old(input.at) <= input.at <= DigitsEnd(input.bytes, start)
    ensures i64 as int == Value(input.bytes, start, input.at)
    ensures minus ==> i64 <= 0x8000_0000_0000_0000
    ensures !useDouble ==> input.at == DigitsEnd(input.bytes, start)
    ensures useDouble ==> input.at < DigitsEnd(input.bytes, start)
    ensures useDouble ==>
      10 * i64 as int + Digit(At(input.bytes, input.at)) > if minus then 0x8000_0000_0000_0000 else 0xFFFF_FFFF_FFFF_FFFF
  {
    ghost var s, end := input.bytes, DigitsEnd(input.bytes, start);
    i64, useDouble := first, false;
    DigitsEndAgain(s, start, input.at);
    var limit: uint64 := if minus then 0x0CCC_CCCC_CCCC_CCCC else 0x1999_9999_9999_9999;
    var last: bv8 := if minus then 0x38 else 0x35;
    var c := input.Peek();
    while IsDigit(c)
      invariant c == At(s, input.at)
      invariant old(input.at) <= input.at <= end == DigitsEnd(s, input.at)
      invariant i64 as int == Value(s, start, input.at)
      invariant minus ==> i64 <= 0x8000_0000_0000_0000
      decreases end - input.at
    {
      DigitOrder(c, last);
      if i64 >= limit && (i64 != limit || c > last) {
        return i64, true;
      }
      i64 := i64 * 10 + Digit(c) as uint64;
      var _ := input.Take();
      c := input.Peek();
    }
  }

  lemma {:induction false} DigitsEndAgain(s: seq<bv8>, at: nat, mid: nat)
    requires at <= mid <= DigitsEnd(s, at)
    ensures DigitsEnd(s, mid) == DigitsEnd(s, at)
    decreases mid - at
  {
    if at < mid {
      DigitsEndAgain(s, at + 1, mid);
    }
  }

  /** Whatever follows, a literal whose first digits are already too much is too much. */
  lemma {:induction false} TooMuch(s: seq<bv8>, start: nat, at: nat, bound: int)
    requires start <= at < DigitsEnd(s, start)
    requires 10 * Value(s, start, at) + Digit(At(s, at)) > bound
    ensures Value(s, start, DigitsEnd(s, start)) > bound
  {
    ValueGrows(s, start, at + 1, DigitsEnd(s, start));
  }

  /** The rest of the digits of a number that no integer type holds. */
  method SkipDigits(input: ByteSource)
    modifies input
    ensures input.at == DigitsEnd(input.bytes, old(input.at))
  {
    ghost var s := input.bytes;
    var c := input.Peek();
    while IsDigit(c)
      invariant c == At(s, input.at)
      invariant DigitsEnd(s, input.at) == DigitsEnd(s, old(input.at))
      decreases DigitsEnd(s, old(input.at)) - input.at
    {
      var _ := input.Take();
      c := input.Peek();
    }
  }

  /** The magnitude of an integer part, as the accumulators hold it. */
  method Magnitude(input: ByteSource, minus: bool) returns (i: uint32, i64: uint64, use64bit: bool, useDouble: bool)
    requires IsDigit(At(input.bytes, input.at))
    modifies input
    ensures input.at == IntegerEnd(input.bytes, old(input.at))
    ensures
      var magnitude := Value(input.bytes, old(input.at), input.at);
      && (useDouble ==> Narrowest(minus, magnitude) == Beyond)
      && (!useDouble && use64bit ==>
            i64 as int == magnitude && Narrowest(minus, magnitude) == if minus then Int64(-magnitude) else Uint64(magnitude))
      && (!useDouble && !use64bit ==>
            i as int == magnitude && Narrowest(minus, magnitude) == if minus then Int(-magnitude) else Uint(magnitude))
  {
    ghost var s, start := input.bytes, input.at;
    var c := input.Take();
    i, i64, use64bit, useDouble := 0, 0, false, false;
    assert Value(s, start, start) == 0 && Value(s, start, start + 1) == Digit(c);
    if c == 0x30 {
      assert Digit(c) == 0;
    } else {
      i, use64bit := Digits32(input, minus, start, Digit(c) as uint32);
      if use64bit {
        ghost var at32 := input.at;
        i64, useDouble := Digits64(input, minus, start, i as uint64);
        TooMuch(s, start, at32, if minus then 0x8000_0000 else 0xFFFF_FFFF);
        if useDouble {
          TooMuch(s, start, input.at, if minus then 0x8000_0000_0000_0000 else 0xFFFF_FFFF_FFFF_FFFF);
          DigitsEndAgain(s, start, input.at);
          SkipDigits(input);
        }
      }
    }
  }

  /** ParseNumber, up to the fraction or exponent of a number that has one. */
  method ParseNumber(input: ByteSource) returns (number: Reported)
    modifies input
    ensures number == NumberAt(input.bytes, old(input.at))
    ensures
      var s, at := input.bytes, old(input.at);
      var minus := At(s, at) == 0x2D;
      if number == Invalid then !(0x30 <= At(s, if minus then at + 1 else at) <= 0x39)
      else exists n :: LiteralStands(s, at, minus, n) && ReportedAs(minus, n, ByteAfter(s, at, minus, n), number)
                       && input.at == at + (if minus then 1 else 0) + |Numeral(n)|
  {
    ghost var n := LiteralIsFound(input.bytes, input.at);
    if IsDigit(At(input.bytes, if At(input.bytes, input.at) == MINUS then input.at + 1 else input.at)) {
      ghost var minus := At(input.bytes, input.at) == MINUS;
      LiteralIsReported(input.bytes, input.at, minus, n);
      ghost var start, end := StandingLiteral(input.bytes, input.at, minus, n);
    }
    var c := input.Peek();
    var minus := c == MINUS;
    if minus {
      var _ := input.Take();
      c := input.Peek();
    }
    if !IsDigit(c) {
      return Invalid;
    }
    var i, i64, use64bit, useDouble := Magnitude(input, minus);
    c := input.Peek();
    if GoesOn(c) {
      return Fractional;
    }
    NegateIsExact(i, i64);
    if useDouble {
      number := Beyond;
    } else if use64bit {
      number := if minus then Int64(Negate64(i64)) else Uint64(i64 as int);
    } else {
      number := if minus then Int(Negate32(i)) else Uint(i as int);
    }
  }

  // ----- The document's number -----

  /** Which types a number can be read as; the payload is the 64-bit word of the value. */
  datatype Flags = Flags(int32: bool, uint32: bool, int64: bool, uint64: bool, double: bool)
  datatype DomNumber = DomNumber(word: int, flags: Flags)

  /** A value as a 64-bit word, two's complement. */
  function Word64(value: int): int {
    value % 0x1_0000_0000_0000_0000
  }

  function Signed64(word: int): int {
    if word < 0x8000_0000_0000_0000 then word else word - 0x1_0000_0000_0000_0000
  }

  function Signed32(word: int): int {
    var low := word % 0x1_0000_0000;
    if low < 0x8000_0000 then low else low - 0x1_0000_0000
  }

  /** The constructors of a document's value from each integer type. The source masks high bits of
      the word; a word has none of them exactly when dividing by the lowest leaves nothing. */
  function OfNumber(n: Reported): DomNumber
    requires n.Int? || n.Uint? || n.Int64? || n.Uint64?
  {
    match n
    case Int(i) =>
      DomNumber(Word64(i), Flags(true, i >= 0, true, i >= 0, false))
    case Uint(u) =>
      var fits := u / 0x8000_0000 % 2 == 0;
      DomNumber(Word64(u), Flags(fits, true, true, true, false))
    case Int64(i) =>
      var word := Word64(i);
      if i >= 0 then
        DomNumber(word, Flags(word / 0x8000_0000 == 0, word / 0x1_0000_0000 == 0, true, true, false))
      else
        DomNumber(word, Flags(i >= Signed64(0xFFFF_FFFF_8000_0000), false, true, false, false))
    case Uint64(u) =>
      DomNumber(Word64(u), Flags(u / 0x8000_0000 == 0, u / 0x1_0000_0000 == 0, u / 0x8000_0000_0000_0000 == 0, true, false))
  }

  predicate InRange(n: Reported) {
    match n
    case Int(i) => -0x8000_0000 <= i < 0x8000_0000
    case Uint(u) => 0 <= u < 0x1_0000_0000
    case Int64(i) => -0x8000_0000_0000_0000 <= i < 0x8000_0000_0000_0000
    case Uint64(u) => 0 <= u < 0x1_0000_0000_0000_0000
    case _ => false
  }

  /** The flags state exactly which integer types can represent a value, and each type's getter then
      returns it. */
  predicate HoldsExactly(d: DomNumber, value: int) {
    && (d.flags.int32 <==> -0x8000_0000 <= value < 0x8000_0000)
    && (d.flags.uint32 <==> 0 <= value < 0x1_0000_0000)
    && (d.flags.int64 <==> -0x8000_0000_0000_0000 <= value < 0x8000_0000_0000_0000)
    && (d.flags.uint64 <==> 0 <= value < 0x1_0000_0000_0000_0000)
    && !d.flags.double
    && (d.flags.int32 ==> Signed32(d.word) == value)
    && (d.flags.uint32 ==> d.word % 0x1_0000_0000 == value)
    && (d.flags.int64 ==> Signed64(d.word) == value)
    && (d.flags.uint64 ==> d.word == value)
  }

  lemma {:induction false} FlagsAreExact(n: Reported)
    requires InRange(n)
    ensures HoldsExactly(OfNumber(n), n.value)
  {}

  /** From text to document: a literal without fraction or exponent becomes a value that every type
      able to hold it returns exactly, and no other type offers; only beyond 64 bits it is not an
      integer there. */
  lemma {:induction false} LiteralInDocument(s: Bytes, at: nat, minus: bool, n: nat)
    requires LiteralStands(s, at, minus, n)
    ensures
      var r, next := NumberAt(s, at), ByteAfter(s, at, minus, n);
      var value := if minus then 0 - n else n;
      && (r == Fractional <==> next == 0x2E || next == 0x65 || next == 0x45)
      && (r == Beyond <==> r != Fractional && !(-0x8000_0000_0000_0000 <= value <= 0xFFFF_FFFF_FFFF_FFFF))
      && (r != Fractional && r != Beyond ==>
            InRange(r) && r.value == value && HoldsExactly(OfNumber(r), value))
  {
    LiteralIsReported(s, at, minus, n);
    if InRange(NumberAt(s, at)) {
      FlagsAreExact(NumberAt(s, at));
    }
  }

  // ----- From document to text and back -----

  /** The handler method by which a document announces an integer: the first whose flag is set. */
  function Announced(d: DomNumber): Reported
    requires !d.flags.double
  {
    if d.flags.int32 then Int(Signed32(d.word))
    else if d.flags.uint32 then Uint(d.word % 0x1_0000_0000)
    else if d.flags.int64 then Int64(Signed64(d.word))
    else Uint64(d.word)
  }

  /** Who reports an integer may choose another method than who reports it again: to a document it
      is the same number, whatever method announces it. */
  lemma {:induction false} ValueDecides(m: Reported, n: Reported)
    requires InRange(m) && InRange(n)
    ensures OfNumber(m) == OfNumber(n) <==> m.value == n.value
    ensures InRange(Announced(OfNumber(n))) && Announced(OfNumber(n)).value == n.value
  {
    FlagsAreExact(m);
    FlagsAreExact(n);
  }

  /** What i32toa, u32toa, i64toa and u64toa write. */
  function Printed(value: int): (s: Bytes)
    ensures |s| > 0
  {
    if value < 0 then [MINUS] + Numeral(-value) else Numeral(value)
  }

  /** An integer, announced by any method and printed in decimal, is read back as the same number of
      the document, whatever text follows that is no part of a number. */
  lemma {:induction false} PrintedIsReadBack(n: Reported, s: Bytes, at: nat)
    requires InRange(n)
    requires at + |Printed(n.value)| <= |s| && s[at..at + |Printed(n.value)|] == Printed(n.value)
    requires
      var next := At(s, at + |Printed(n.value)|);
      !(0x30 <= next <= 0x39) && next != 0x2E && next != 0x65 && next != 0x45
    ensures InRange(NumberAt(s, at)) && NumberAt(s, at).value == n.value
    ensures OfNumber(NumberAt(s, at)) == OfNumber(n)
  {
    var minus, magnitude := n.value < 0, if n.value < 0 then -n.value else n.value;
    assert Printed(n.value) == (if minus then [0x2D] else []) + Numeral(magnitude);
    LiteralIsReported(s, at, minus, magnitude);
    ValueDecides(NumberAt(s, at), n);
  }
}
