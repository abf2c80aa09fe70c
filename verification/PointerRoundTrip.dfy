/** What is written is read back: Parse inverts Stringify, in both representations, and Stringify
    inverts Parse on strings. */
module PointerRoundTrip {
  import opened Basics
  import opened Decimals
  import opened Utf8
  import opened PointerSyntax

  /** The bytes stand in a text at a place. */
  predicate Stands(s: Bytes, i: nat, bytes: Bytes) {
    i + |bytes| <= |s| && s[i..i + |bytes|] == bytes
  }

  lemma {:induction false} StandsAt(s: Bytes, i: nat, bytes: Bytes, k: nat)
    requires Stands(s, i, bytes) && k < |bytes|
    ensures s[i + k] == bytes[k]
  {
    assert s[i..i + |bytes|][k] == bytes[k];
  }

  lemma {:induction false} StandsApart(s: Bytes, i: nat, a: Bytes, b: Bytes)
    requires Stands(s, i, a + b)
    ensures Stands(s, i, a) && Stands(s, i + |a|, b)
  {
    var all := s[i..i + |a + b|];
    assert s[i..i + |a|] == all[..|a|] == a;
    assert s[i + |a|..i + |a| + |b|] == all[|a|..] == b;
  }

  // ----- Percent triplets -----

  lemma {:induction false} LetterBack(n: bv8)
    requires n < 16
    ensures HexDigit(HexLetter(n)) == Some(n)
  {}

  lemma {:induction false} NibblesBack(o: bv8)
    ensures o >> 4 < 16 && o & 15 < 16 && ((o >> 4) << 4) + (o & 15) == o
  {}

  lemma {:induction false} TripletBack(s: Bytes, i: nat, o: bv8)
    requires Stands(s, i, [PERCENT, HexLetter(o >> 4), HexLetter(o & 15)])
    ensures Triplet(s, i) == Some(o)
  {
    var t := [PERCENT, HexLetter(o >> 4), HexLetter(o & 15)];
    StandsAt(s, i, t, 0);
    StandsAt(s, i, t, 1);
    StandsAt(s, i, t, 2);
    NibblesBack(o);
    LetterBack(o >> 4);
    LetterBack(o & 15);
  }

  lemma {:induction false} OctetsBack(s: Bytes, i: nat, octets: Bytes)
    requires Stands(s, i, PercentEncode(octets))
    ensures octets <= Octets(s, i)
    ensures |PercentEncode(octets)| == 3 * |octets|
    decreases octets
  {
    if |octets| > 0 {
      var first := [PERCENT, HexLetter(octets[0] >> 4), HexLetter(octets[0] & 15)];
      StandsApart(s, i, first, PercentEncode(octets[1..]));
      TripletBack(s, i, octets[0]);
      OctetsBack(s, i + 3, octets[1..]);
      assert octets == [octets[0]] + octets[1..];
    }
  }

  lemma {:induction false} TakenOfPrefix(s: Bytes, bytes: Bytes)
    requires bytes <= s
    ensures Taken(s, 0, |bytes|) == bytes
  {
    TakenInside(s, 0, |bytes|);
  }

  /** A sequence that was written octet by octet is read as one sequence. */
  lemma {:induction false} SequenceBack(s: Bytes, i: nat, name: Bytes, j: nat)
    requires Decode(name, j).ok && j < |name| && At(name, j) != TILDE
    requires Stands(s, i, PercentEncode(Taken(name, j, Decode(name, j).length)))
    ensures ReadOctets(s, i) == Good(i + 3 * Decode(name, j).length, Taken(name, j, Decode(name, j).length))
  {
    var d := Decode(name, j);
    var octets := Taken(name, j, d.length);
    AcceptedIsEncoding(name, j);
    OctetsBack(s, i, octets);
    TakenOfPrefix(Octets(s, i), octets);
    DecodeOfEncoding(Octets(s, i), 0, d.codepoint);
    DecodeTakes(name, j);
    if d.length == 1 {
      assert octets == [At(name, j)];
    }
  }

  // ----- Characters -----

  lemma {:induction false} UnitBack(s: Bytes, uriFragment: bool, i: nat, name: Bytes, j: nat, n: nat, bytes: Bytes)
    requires j < |name| && WriteUnit(name, uriFragment, j) == Some((n, bytes)) && j + n <= |name|
    requires Stands(s, i, bytes)
    ensures |bytes| > 0 && s[i] != SLASH
    ensures ReadUnit(s, uriFragment, i) == Good(i + |bytes|, name[j..j + n])
  {
    var c := name[j];
    if c == TILDE || c == SLASH {
      StandsAt(s, i, bytes, 0);
      StandsAt(s, i, bytes, 1);
      assert name[j..j + 1] == [c];
    } else if uriFragment && NeedPercentEncode(c) {
      EncodedUnitBack(s, i, name, j, n, bytes);
    } else {
      StandsAt(s, i, bytes, 0);
      assert name[j..j + 1] == [c];
      PercentIsEncoded();
    }
  }

  lemma {:induction false} EncodedUnitBack(s: Bytes, i: nat, name: Bytes, j: nat, n: nat, bytes: Bytes)
    requires j < |name| && j + n <= |name| && name[j] != TILDE
    requires Decode(name, j).ok && n == Decode(name, j).length && bytes == PercentEncode(Taken(name, j, n))
    requires Stands(s, i, bytes)
    ensures |bytes| > 0 && s[i] == PERCENT && ReadUnit(s, true, i) == Good(i + |bytes|, name[j..j + n])
  {
    var octets := Taken(name, j, n);
    DecodeTakes(name, j);
    OctetsBack(s, i, octets);
    StandsAt(s, i, bytes, 0);
    SequenceBack(s, i, name, j);
    TakenInside(name, j, n);
  }

  lemma {:induction false} PercentIsEncoded()
    ensures NeedPercentEncode(PERCENT)
  {}

  // ----- Names -----

  /** A slash or the end of the text. */
  predicate EndsName(s: Bytes, i: nat) {
    i <= |s| && (i < |s| ==> s[i] == SLASH)
  }

  lemma {:induction false} NameParts(name: Bytes, uriFragment: bool, j: nat, written: Bytes) returns (n: nat,
        bytes: Bytes, rest: Bytes)
    requires j < |name| && WriteName(name, uriFragment, j) == Some(written)
    ensures 0 < n <= |name| - j && WriteUnit(name, uriFragment, j) == Some((n, bytes))
    ensures WriteName(name, uriFragment, j + n) == Some(rest) && written == bytes + rest
  {
    n, bytes := WriteUnit(name, uriFragment, j).value.0, WriteUnit(name, uriFragment, j).value.1;
    WriteUnitMovesOn(name, uriFragment, j);
    rest := WriteName(name, uriFragment, j + n).value;
  }

  lemma {:induction false} ReadOneUnit(s: Bytes, uriFragment: bool, i: nat, next: nat, bytes: Bytes, before: Bytes)
    requires i < |s| && s[i] != SLASH && ReadUnit(s, uriFragment, i) == Good(next, bytes)
    ensures ReadName(s, uriFragment, i, before) == ReadName(s, uriFragment, next, before + bytes)
  {}

  lemma {:induction false} TwoSlices(before: Bytes, name: Bytes, j: nat, k: nat)
    requires j <= k <= |name|
    ensures before + name[j..k] + name[k..] == before + name[j..]
  {}

  lemma {:induction false} NameBack(s: Bytes, uriFragment: bool, i: nat, name: Bytes, j: nat, written: Bytes, before: Bytes)
    requires j <= |name| && WriteName(name, uriFragment, j) == Some(written)
    requires Stands(s, i, written) && EndsName(s, i + |written|)
    ensures ReadName(s, uriFragment, i, before) == Good(i + |written|, before + name[j..])
    decreases |name| - j
  {
    if j == |name| {
      NameEnds(s, uriFragment, i, before);
      assert before + name[j..] == before;
    } else {
      var n, k, rest := FirstUnitBack(s, uriFragment, i, name, j, written, before);
      NameBack(s, uriFragment, k, name, j + n, rest, before + name[j..j + n]);
      TwoSlices(before, name, j, j + n);
    }
  }

  lemma {:induction false} NameEnds(s: Bytes, uriFragment: bool, i: nat, before: Bytes)
    requires EndsName(s, i)
    ensures ReadName(s, uriFragment, i, before) == Good(i, before)
  {}

  lemma {:induction false} FirstUnitBack(s: Bytes, uriFragment: bool, i: nat, name: Bytes, j: nat, written: Bytes,
        before: Bytes)
    returns (n: nat, k: nat, rest: Bytes)
    requires j < |name| && WriteName(name, uriFragment, j) == Some(written)
    requires Stands(s, i, written)
    ensures 0 < n <= |name| - j && WriteName(name, uriFragment, j + n) == Some(rest)
    ensures Stands(s, k, rest) && k + |rest| == i + |written|
    ensures ReadName(s, uriFragment, i, before) == ReadName(s, uriFragment, k, before + name[j..j + n])
  {
    var bytes;
    n, bytes, rest := NameParts(name, uriFragment, j, written);
    k := i + |bytes|;
    StandsApart(s, i, bytes, rest);
    UnitBack(s, uriFragment, i, name, j, n, bytes);
    ReadOneUnit(s, uriFragment, i, k, name[j..j + n], before);
  }

  // ----- Pointers -----

  /** Every index is the one its name spells. Parsing only makes such tokens. */
  predicate Consistent(tokens: seq<Token>) {
    forall k | 0 <= k < |tokens| :: tokens[k] == TokenOf(tokens[k].name)
  }

  lemma {:induction false} WrittenStartsName(tokens: seq<Token>, uriFragment: bool)
    requires WriteTokens(tokens, uriFragment).Some?
    ensures var w := WriteTokens(tokens, uriFragment).value; |w| > 0 ==> w[0] == SLASH
  {}

  lemma {:induction false} FirstWritten(tokens: seq<Token>, uriFragment: bool) returns (name: Bytes, rest: Bytes)
    requires |tokens| > 0 && WriteTokens(tokens, uriFragment).Some?
    ensures WriteName(tokens[0].name, uriFragment, 0) == Some(name)
    ensures WriteTokens(tokens[1..], uriFragment) == Some(rest)
    ensures WriteTokens(tokens, uriFragment).value == [SLASH] + (name + rest)
    ensures |rest| > 0 ==> rest[0] == SLASH
  {
    name := WriteName(tokens[0].name, uriFragment, 0).value;
    rest := WriteTokens(tokens[1..], uriFragment).value;
    WrittenStartsName(tokens[1..], uriFragment);
  }

  lemma {:induction false} AfterSlash(s: Bytes, i: nat, name: Bytes, rest: Bytes)
    requires i <= |s| && s[i..] == [SLASH] + (name + rest)
    requires |rest| > 0 ==> rest[0] == SLASH
    ensures i < |s| && Stands(s, i + 1, name) && EndsName(s, i + 1 + |name|)
    ensures s[i + 1 + |name|..] == rest
  {
    assert s[i + 1..] == s[i..][1..] == name + rest;
    assert s[i + 1..i + 1 + |name|] == s[i + 1..][..|name|] == name;
    assert s[i + 1 + |name|..] == s[i + 1..][|name|..] == rest;
  }

  lemma {:induction false} TokensBack(s: Bytes, uriFragment: bool, i: nat, tokens: seq<Token>, before: seq<Token>)
    requires Consistent(tokens) && WriteTokens(tokens, uriFragment).Some?
    requires i <= |s| && s[i..] == WriteTokens(tokens, uriFragment).value
    ensures ReadTokens(s, uriFragment, i, before) == Valid(before + tokens)
    decreases tokens
  {
    if |tokens| == 0 {
      assert before + tokens == before;
    } else {
      var k := FirstTokenBack(s, uriFragment, i, tokens, before);
      ConsistentRest(tokens);
      TokensBack(s, uriFragment, k, tokens[1..], before + [tokens[0]]);
      assert before + [tokens[0]] + tokens[1..] == before + tokens;
    }
  }

  lemma {:induction false} ConsistentRest(tokens: seq<Token>)
    requires Consistent(tokens) && |tokens| > 0
    ensures Consistent(tokens[1..])
  {
    forall k | 0 <= k < |tokens[1..]| ensures tokens[1..][k] == TokenOf(tokens[1..][k].name) {
      assert tokens[1..][k] == tokens[k + 1];
    }
  }

  lemma {:induction false} FirstTokenBack(s: Bytes, uriFragment: bool, i: nat, tokens: seq<Token>, before: seq<Token>)
    returns (k: nat)
    requires |tokens| > 0 && tokens[0] == TokenOf(tokens[0].name) && WriteTokens(tokens, uriFragment).Some?
    requires i <= |s| && s[i..] == WriteTokens(tokens, uriFragment).value
    ensures WriteTokens(tokens[1..], uriFragment).Some?
    ensures k <= |s| && s[k..] == WriteTokens(tokens[1..], uriFragment).value
    ensures ReadTokens(s, uriFragment, i, before) == ReadTokens(s, uriFragment, k, before + [tokens[0]])
  {
    var name, rest := FirstWritten(tokens, uriFragment);
    AfterSlash(s, i, name, rest);
    k := i + 1 + |name|;
    NameBack(s, uriFragment, i + 1, tokens[0].name, 0, name, []);
    assert [] + tokens[0].name[0..] == tokens[0].name;
    ReadOneToken(s, uriFragment, i, k, tokens[0].name, before);
  }

  lemma {:induction false} ReadOneToken(s: Bytes, uriFragment: bool, i: nat, next: nat, name: Bytes, before: seq<Token>)
    requires i < |s| && ReadName(s, uriFragment, i + 1, []) == Good(next, name)
    ensures ReadTokens(s, uriFragment, i, before) == ReadTokens(s, uriFragment, next, before + [TokenOf(name)])
  {}

  lemma {:induction false} ConsistentBack(tokens: seq<Token>, uriFragment: bool)
    requires Consistent(tokens) && Stringify(tokens, uriFragment).Some?
    ensures Parse(Stringify(tokens, uriFragment).value) == Valid(tokens)
  {
    var s := Stringify(tokens, uriFragment).value;
    var written := WriteTokens(tokens, uriFragment).value;
    WrittenStartsName(tokens, uriFragment);
    var i := if uriFragment then 1 else 0;
    assert s[i..] == written;
    assert (At(s, 0) == HASH) == uriFragment by {
      if !uriFragment {
        assert s == written;
      }
    }
    TokensBack(s, uriFragment, i, tokens, []);
    assert [] + tokens == tokens;
  }

  // ----- One token for each slash -----

  function Slashes(s: Bytes, i: nat): nat
    decreases |s| - i
  {
    if i >= |s| then 0 else (if s[i] == SLASH then 1 else 0) + Slashes(s, i + 1)
  }

  lemma {:induction false} NoSlashBetween(s: Bytes, i: nat, next: nat)
    requires i <= next <= |s| && forall k | i <= k < next :: s[k] != SLASH
    ensures Slashes(s, i) == Slashes(s, next)
    decreases next - i
  {
    if i < next {
      NoSlashBetween(s, i + 1, next);
    }
  }

  lemma {:induction false} TripletHasNoSlash(s: Bytes, i: nat)
    requires Triplet(s, i).Some?
    ensures i + 3 <= |s| && s[i] != SLASH && s[i + 1] != SLASH && s[i + 2] != SLASH
  {}

  lemma {:induction false} TripletsHaveNoSlash(s: Bytes, i: nat, n: nat)
    requires n <= |Octets(s, i)|
    ensures i + 3 * n <= |s| || n == 0
    ensures forall k | i <= k < i + 3 * n :: s[k] != SLASH
    decreases n
  {
    if n > 0 {
      TripletHasNoSlash(s, i);
      TripletsHaveNoSlash(s, i + 3, n - 1);
    }
  }

  lemma {:induction false} UnitHasNoSlash(s: Bytes, uriFragment: bool, i: nat)
    requires i < |s| && s[i] != SLASH && ReadUnit(s, uriFragment, i).Good?
    ensures ReadUnit(s, uriFragment, i).next <= |s|
    ensures forall k | i <= k < ReadUnit(s, uriFragment, i).next :: s[k] != SLASH
  {
    ReadUnitMovesOn(s, uriFragment, i);
    if uriFragment && s[i] == PERCENT {
      var d := Decode(Octets(s, i), 0);
      DecodeTakes(Octets(s, i), 0);
      TripletsHaveNoSlash(s, i, d.length);
    }
  }

  lemma {:induction false} NameHasNoSlash(s: Bytes, uriFragment: bool, i: nat, before: Bytes)
    requires i <= |s| && ReadName(s, uriFragment, i, before).Good?
    ensures ReadName(s, uriFragment, i, before).next <= |s|
    ensures Slashes(s, i) == Slashes(s, ReadName(s, uriFragment, i, before).next)
    decreases |s| - i
  {
    if i < |s| && s[i] != SLASH {
      var unit := ReadUnit(s, uriFragment, i);
      ReadUnitMovesOn(s, uriFragment, i);
      UnitHasNoSlash(s, uriFragment, i);
      NoSlashBetween(s, i, unit.next);
      ReadOneUnit(s, uriFragment, i, unit.next, unit.bytes, before);
      NameHasNoSlash(s, uriFragment, unit.next, before + unit.bytes);
    }
  }

  lemma {:induction false} TokensRead(s: Bytes, uriFragment: bool, i: nat, before: seq<Token>)
    requires EndsName(s, i) && Consistent(before) && ReadTokens(s, uriFragment, i, before).Valid?
    ensures
      var tokens := ReadTokens(s, uriFragment, i, before).tokens;
      Consistent(tokens) && |tokens| == |before| + Slashes(s, i)
    decreases |s| - i
  {
    if i < |s| {
      var unit := ReadName(s, uriFragment, i + 1, []);
      ReadNameMovesOn(s, uriFragment, i + 1, []);
      NameHasNoSlash(s, uriFragment, i + 1, []);
      ReadOneToken(s, uriFragment, i, unit.next, unit.bytes, before);
      ConsistentMore(before, unit.bytes);
      TokensRead(s, uriFragment, unit.next, before + [TokenOf(unit.bytes)]);
    }
  }

  lemma {:induction false} ConsistentMore(tokens: seq<Token>, name: Bytes)
    requires Consistent(tokens)
    ensures Consistent(tokens + [TokenOf(name)])
  {}

  /** A parsed pointer has as many tokens as its text has slashes, each with the index its name spells. */
  lemma {:induction false} ParsedPointer(s: Bytes)
    requires Parse(s).Valid?
    ensures Consistent(Parse(s).tokens) && |Parse(s).tokens| == Slashes(s, 0)
  {
    TokensRead(s, At(s, 0) == HASH, if At(s, 0) == HASH then 1 else 0, []);
  }

  // ----- What is written is read back -----

  /** What a pointer is stringified to, as a string or as a URI fragment, is parsed to the same tokens
      if and only if each token has the index that its name spells. */
  lemma {:induction false} ParseOfStringify(tokens: seq<Token>, uriFragment: bool)
    requires Stringify(tokens, uriFragment).Some?
    ensures Parse(Stringify(tokens, uriFragment).value) == Valid(tokens) <==> Consistent(tokens)
  {
    if Consistent(tokens) {
      ConsistentBack(tokens, uriFragment);
    }
    if Parse(Stringify(tokens, uriFragment).value).Valid? {
      ParsedPointer(Stringify(tokens, uriFragment).value);
    }
  }

  // ----- A string is what its pointer is written as -----

  lemma {:induction false} UnitRewritten(s: Bytes, i: nat, name: Bytes, j: nat)
    requires i < |s| && s[i] != SLASH && ReadUnit(s, false, i).Good?
    requires j < |name| && ReadUnit(s, false, i).bytes == [name[j]]
    ensures ReadUnit(s, false, i).next <= |s|
    ensures WriteUnit(name, false, j) == Some((1, s[i..ReadUnit(s, false, i).next]))
  {
    ReadUnitMovesOn(s, false, i);
    assert s[i..i + 1] == [s[i]];
    if s[i] == TILDE {
      assert s[i..i + 2] == [s[i], s[i + 1]];
    }
  }

  lemma {:induction false} UnitIsOneByte(s: Bytes, i: nat)
    requires i < |s| && ReadUnit(s, false, i).Good?
    ensures |ReadUnit(s, false, i).bytes| == 1
  {}

  lemma {:induction false} NameGrows(s: Bytes, uriFragment: bool, i: nat, before: Bytes)
    requires i <= |s| && ReadName(s, uriFragment, i, before).Good?
    ensures before <= ReadName(s, uriFragment, i, before).bytes
    decreases |s| - i
  {
    if i < |s| && s[i] != SLASH {
      var unit := ReadUnit(s, uriFragment, i);
      ReadUnitMovesOn(s, uriFragment, i);
      ReadOneUnit(s, uriFragment, i, unit.next, unit.bytes, before);
      NameGrows(s, uriFragment, unit.next, before + unit.bytes);
    }
  }

  lemma {:induction false} NameRewritten(s: Bytes, i: nat, before: Bytes, next: nat, name: Bytes)
    requires i <= |s| && ReadName(s, false, i, before) == Good(next, name)
    ensures i <= next <= |s| && |before| <= |name|
    ensures WriteName(name, false, |before|) == Some(s[i..next])
    decreases |s| - i
  {
    if i == |s| || s[i] == SLASH {
      assert s[i..i] == [];
    } else {
      var unit := ReadUnit(s, false, i);
      ReadUnitMovesOn(s, false, i);
      ReadOneUnit(s, false, i, unit.next, unit.bytes, before);
      NameRewritten(s, unit.next, before + unit.bytes, next, name);
      NameGrows(s, false, unit.next, before + unit.bytes);
      UnitIsOneByte(s, i);
      assert name[|before|] == (before + unit.bytes)[|before|];
      UnitRewritten(s, i, name, |before|);
      WriteOneUnit(name, |before|, s[i..unit.next], s[unit.next..next]);
      assert s[i..unit.next] + s[unit.next..next] == s[i..next];
    }
  }

  lemma {:induction false} WriteOneUnit(name: Bytes, j: nat, bytes: Bytes, rest: Bytes)
    requires j < |name| && WriteUnit(name, false, j) == Some((1, bytes)) && WriteName(name, false, j + 1) == Some(rest)
    ensures WriteName(name, false, j) == Some(bytes + rest)
  {}

  lemma {:induction false} TokensRewritten(s: Bytes, i: nat, before: seq<Token>, after: seq<Token>)
    requires EndsName(s, i) && ReadTokens(s, false, i, before) == Valid(before + after)
    ensures WriteTokens(after, false) == Some(s[i..])
    decreases |s| - i
  {
    if i == |s| {
      assert |before + after| == |before|;
      assert after == [] && s[i..] == [];
    } else {
      var next, token := FirstTokenRead(s, i, before, after);
      TokensRewritten(s, next, before + [token], after[1..]);
      WriteOneToken(after, s[i + 1..next], s[next..]);
      SlashAndRest(s, i, next);
    }
  }

  lemma {:induction false} SlashAndRest(s: Bytes, i: nat, next: nat)
    requires i < next <= |s| && s[i] == SLASH
    ensures s[i..] == [SLASH] + s[i + 1..next] + s[next..]
  {}

  lemma {:induction false} FirstTokenRead(s: Bytes, i: nat, before: seq<Token>,
        after: seq<Token>) returns (next: nat, token: Token)
    requires EndsName(s, i) && i < |s| && ReadTokens(s, false, i, before) == Valid(before + after)
    ensures i < next && EndsName(s, next) && |after| > 0 && after[0] == token
    ensures ReadTokens(s, false, next, before + [token]) == Valid(before + [token] + after[1..])
    ensures WriteName(token.name, false, 0) == Some(s[i + 1..next])
  {
    var unit := ReadName(s, false, i + 1, []);
    next, token := unit.next, TokenOf(unit.bytes);
    ReadNameMovesOn(s, false, i + 1, []);
    ReadOneToken(s, false, i, next, unit.bytes, before);
    TokensGrow(s, false, next, before + [token]);
    FirstOfAfter(before, token, after);
    NameRewritten(s, i + 1, [], next, unit.bytes);
  }

  lemma {:induction false} WriteOneToken(tokens: seq<Token>, name: Bytes, rest: Bytes)
    requires |tokens| > 0 && WriteName(tokens[0].name, false, 0) == Some(name)
    requires WriteTokens(tokens[1..], false) == Some(rest)
    ensures WriteTokens(tokens, false) == Some([SLASH] + name + rest)
  {}

  lemma {:induction false} FirstOfAfter(before: seq<Token>, token: Token, after: seq<Token>)
    requires before + [token] <= before + after
    ensures |after| > 0 && after[0] == token && before + [token] + after[1..] == before + after
  {
    assert (before + after)[|before|] == token;
  }

  lemma {:induction false} TokensGrow(s: Bytes, uriFragment: bool, i: nat, before: seq<Token>)
    requires i <= |s| && ReadTokens(s, uriFragment, i, before).Valid?
    ensures before <= ReadTokens(s, uriFragment, i, before).tokens
    decreases |s| - i
  {
    if i < |s| {
      var unit := ReadName(s, uriFragment, i + 1, []);
      ReadNameMovesOn(s, uriFragment, i + 1, []);
      ReadOneToken(s, uriFragment, i, unit.next, unit.bytes, before);
      TokensGrow(s, uriFragment, unit.next, before + [TokenOf(unit.bytes)]);
    }
  }

  /** A string that is a pointer is exactly what the pointer is stringified to. */
  lemma {:induction false} StringifyOfParse(s: Bytes)
    requires Parse(s).Valid? && At(s, 0) != HASH
    ensures Stringify(Parse(s).tokens, false) == Some(s)
  {
    var tokens := Parse(s).tokens;
    assert [] + tokens == tokens && s[0..] == s;
    TokensRewritten(s, 0, [], tokens);
    assert [] + s == s;
  }

  // ----- Indices -----

  function Decimal(n: nat, digits: Bytes): nat
    requires AllDigits(digits)
    decreases digits
  {
    if |digits| == 0 then n else Decimal(n * 10 + Digit(digits[0]), digits[1..])
  }

  lemma {:induction false} DecimalGrows(n: nat, digits: Bytes)
    requires AllDigits(digits)
    ensures Decimal(n, digits) >= n
    decreases digits
  {
    if |digits| > 0 {
      DecimalGrows(n * 10 + Digit(digits[0]), digits[1..]);
    }
  }

  lemma {:induction false} AccumulateIsDecimal(n: nat, digits: Bytes)
    requires AllDigits(digits) && Decimal(n, digits) < SIZE_TYPE
    ensures Accumulate(n, digits) == Some(Decimal(n, digits))
    decreases digits
  {
    if |digits| > 0 {
      DecimalGrows(n * 10 + Digit(digits[0]), digits[1..]);
      AccumulateIsDecimal(n * 10 + Digit(digits[0]), digits[1..]);
    }
  }

  lemma {:induction false} AccumulateIsSmall(n: nat, digits: Bytes)
    requires AllDigits(digits) && n < SIZE_TYPE
    ensures Accumulate(n, digits).Some? ==> Accumulate(n, digits).value < SIZE_TYPE
    decreases digits
  {
    if |digits| > 0 {
      AccumulateIsSmall((n * 10 + Digit(digits[0])) % SIZE_TYPE, digits[1..]);
    }
  }

  /** A numeral has its decimal value as its index exactly when the value is below 2^32 - 1, which is the
      mark for no index; a name that is no numeral has none. */
  lemma {:induction false} IndexIsDecimal(name: Bytes)
    ensures IsNumeral(name) ==>
      (IndexOf(name) != INVALID_INDEX && IndexOf(name) == Decimal(0, name) <==> Decimal(0, name) < INVALID_INDEX)
    ensures !IsNumeral(name) ==> IndexOf(name) == INVALID_INDEX
  {
    if IsNumeral(name) {
      AccumulateIsSmall(0, name);
      if Decimal(0, name) < SIZE_TYPE {
        AccumulateIsDecimal(0, name);
      }
    }
  }

  /** The overflow test misses some wraps: the index of 10000000000 is 1410065408. */
  lemma {:induction false} WrapIsMissed()
    ensures
      var name := [ONE] + seq(10, _ => ZERO);
      IsNumeral(name) && IndexOf(name) == 1410065408 && Decimal(0, name) == 10_000_000_000
  {
    var zeros := seq(10, _ => ZERO);
    var name := [ONE] + zeros;
    assert name[1..] == zeros;
    assert Digit(ONE) == 1 && Digit(ZERO) == 0;
    assert Pow10(0) == 1 && Pow10(9) == 1_000_000_000 && Pow10(10) == 10_000_000_000;
    DecimalOfZeros(0, zeros);
    AccumulateZeros(0, zeros, 9);
    assert zeros[9..] == [ZERO];
    assert Accumulate(1_000_000_000, [ZERO]) == Some(1410065408);
  }

  function Pow10(n: nat): nat {
    if n == 0 then 1 else 10 * Pow10(n - 1)
  }

  lemma {:induction false} DecimalOfZeros(m: nat, zeros: Bytes)
    requires forall i | 0 <= i < |zeros| :: zeros[i] == ZERO
    ensures AllDigits(zeros) && Decimal(Pow10(m), zeros) == Pow10(m + |zeros|)
    decreases zeros
  {
    if |zeros| > 0 {
      assert Digit(zeros[0]) == 0;
      assert Pow10(m + 1) == 10 * Pow10(m);
      DecimalOfZeros(m + 1, zeros[1..]);
    }
  }

  /** Up to 10^9, nothing wraps. */
  lemma {:induction false} AccumulateZeros(m: nat, zeros: Bytes, k: nat)
    requires k <= |zeros| && m + k <= 9 && forall i | 0 <= i < |zeros| :: zeros[i] == ZERO
    ensures AllDigits(zeros) && Accumulate(Pow10(m), zeros) == Accumulate(Pow10(m + k), zeros[k..])
    decreases k
  {
    if k == 0 {
      assert zeros[0..] == zeros;
    } else {
      Pow10Fits(m + 1);
      OneZero(Pow10(m), zeros, Pow10(m + 1));
      AccumulateZeros(m + 1, zeros[1..], k - 1);
      assert zeros[1..][k - 1..] == zeros[k..];
    }
  }

  lemma {:induction false} OneZero(n: nat, zeros: Bytes, m: nat)
    requires AllDigits(zeros) && |zeros| > 0 && zeros[0] == ZERO
    requires m == 10 * n && m < SIZE_TYPE
    ensures Accumulate(n, zeros) == Accumulate(m, zeros[1..])
  {
    assert Digit(zeros[0]) == 0;
  }

  lemma {:induction false} Pow10Fits(m: nat)
    requires m <= 9
    ensures 1 <= Pow10(m) < SIZE_TYPE
  {
    assert Pow10(9) == 1_000_000_000;
    Pow10Grows(m, 9);
  }

  lemma {:induction false} Pow10Grows(m: nat, n: nat)
    requires m <= n
    ensures 1 <= Pow10(m) <= Pow10(n)
    decreases n
  {
    if m < n {
      Pow10Grows(m, n - 1);
    } else if m > 0 {
      Pow10Grows(m - 1, m - 1);
    }
  }

  lemma {:induction false} NumeralIsNumeral(n: nat)
    ensures IsNumeral(Numeral(n)) && Decimal(0, Numeral(n)) == n
    decreases n
  {
    NumeralIsDigits(n);
    LetterIsDigit(n % 10);
    if n >= 10 {
      NumeralIsNumeral(n / 10);
      DecimalMore(0, Numeral(n / 10), Letter(n % 10));
    } else {
      assert Numeral(n)[1..] == [];
    }
  }

  lemma {:induction false} DecimalMore(n: nat, digits: Bytes, d: bv8)
    requires AllDigits(digits) && IsDigit(d)
    ensures AllDigits(digits + [d]) && Decimal(n, digits + [d]) == 10 * Decimal(n, digits) + Digit(d)
    decreases digits
  {
    if |digits| == 0 {
      assert digits + [d] == [d] && [d][1..] == [];
      assert Decimal(n, [d]) == Decimal(n * 10 + Digit(d), []);
    } else {
      assert (digits + [d])[1..] == digits[1..] + [d];
      DecimalMore(n * 10 + Digit(digits[0]), digits[1..], d);
    }
  }

  /** The token of an element's numeral has the element's index if and only if that is below 2^32 - 1. */
  lemma {:induction false} IndexTokenIsIndex(n: nat)
    ensures TokenOf(Numeral(n)).index != INVALID_INDEX && TokenOf(Numeral(n)).index == n <==> n < INVALID_INDEX
    ensures n == INVALID_INDEX ==> TokenOf(Numeral(n)).index == INVALID_INDEX
  {
    NumeralIsNumeral(n);
    IndexIsDecimal(Numeral(n));
    if n == INVALID_INDEX {
      AccumulateIsDecimal(0, Numeral(n));
    }
  }

  // ----- Pointers that Append makes -----

  /** Append of a name: the token never has an index. */
  function AppendName(tokens: seq<Token>, name: Bytes): seq<Token> {
    tokens + [Token(name, INVALID_INDEX)]
  }

  /** Append of an index. */
  function AppendIndex(tokens: seq<Token>, index: nat): seq<Token> {
    tokens + [Token(Numeral(index), index)]
  }

  lemma {:induction false} ConsistentLast(tokens: seq<Token>, last: Token)
    ensures Consistent(tokens + [last]) <==> Consistent(tokens) && last == TokenOf(last.name)
  {
    var all := tokens + [last];
    assert forall k | 0 <= k < |tokens| :: all[k] == tokens[k];
    assert all[|tokens|] == last;
  }

  /** A pointer that an index was appended to survives being written and read; one that a name was
      appended to does so if and only if the name spells no index. */
  lemma {:induction false} AppendedIsReadBack(tokens: seq<Token>, name: Bytes, index: nat, uriFragment: bool)
    requires Consistent(tokens) && index < SIZE_TYPE
    ensures Stringify(AppendIndex(tokens, index), uriFragment).Some? ==>
              Parse(Stringify(AppendIndex(tokens, index), uriFragment).value) == Valid(AppendIndex(tokens, index))
    ensures Stringify(AppendName(tokens, name), uriFragment).Some? ==>
              (IndexOf(name) == INVALID_INDEX <==>
                 Parse(Stringify(AppendName(tokens, name), uriFragment).value) == Valid(AppendName(tokens, name)))
  {
    ConsistentLast(tokens, Token(name, INVALID_INDEX));
    ConsistentLast(tokens, Token(Numeral(index), index));
    IndexTokenIsIndex(index);
    if Stringify(AppendIndex(tokens, index), uriFragment).Some? {
      ParseOfStringify(AppendIndex(tokens, index), uriFragment);
    }
    if Stringify(AppendName(tokens, name), uriFragment).Some? {
      ParseOfStringify(AppendName(tokens, name), uriFragment);
    }
  }

  /** A pointer that is not read back: the name 0 appended to the root, which is written as /0 and
      read as an index. */
  lemma {:induction false} AppendedZeroIsAnIndex()
    ensures Stringify(AppendName([], [ZERO]), false) == Some([SLASH, ZERO])
    ensures Parse([SLASH, ZERO]) == Valid([Token([ZERO], 0)])
  {
    var tokens := AppendIndex([], 0);
    assert Numeral(0) == [ZERO];
    assert tokens == [Token([ZERO], 0)] && AppendName([], [ZERO]) == [Token([ZERO], INVALID_INDEX)];
    assert WriteName([ZERO], false, 1) == Some([]);
    assert WriteName([ZERO], false, 0) == Some([ZERO] + []);
    assert [SLASH] + ([ZERO] + []) + [] == [SLASH, ZERO];
    WrittenOne(Token([ZERO], 0), false);
    WrittenOne(Token([ZERO], INVALID_INDEX), false);
    assert [] + [SLASH, ZERO] == [SLASH, ZERO];
    assert Stringify(tokens, false) == Some([SLASH, ZERO]);
    AppendedIsReadBack([], [], 0, false);
  }

  lemma {:induction false} WrittenOne(t: Token, uriFragment: bool)
    requires WriteName(t.name, uriFragment, 0).Some?
    ensures WriteTokens([t], uriFragment) == Some([SLASH] + WriteName(t.name, uriFragment, 0).value + [])
  {
    assert [t][1..] == [];
  }
}
