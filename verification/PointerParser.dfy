/** GenericPointer: parsing into a token array and one name buffer, allocated together before the
    first character is read. */
module PointerParser {
  import opened Basics
  import opened Decimals
  import opened Utf8
  import opened PointerSyntax
  import opened PointerRoundTrip

  // A token's name lies in the name buffer.
  datatype RawToken = RawToken(start: nat, length: nat, index: nat)

  // ----- Percent decoding -----

  class PercentDecodeStream {
    const source: Bytes
    var src: nat
    var valid: bool

    constructor (source: Bytes, at: nat)
      ensures this.source == source && src == at && valid
    {
      this.source := source;
      src := at;
      valid := true;
    }

    /** The octet of the next triplet; a NUL, and no longer valid, if there is none. At the end of the
        source, the byte behind it is read, and does not matter. */
    method Take() returns (c: bv8)
      modifies this
      ensures Triplet(source, old(src)).Some? ==>
                c == Triplet(source, old(src)).value && src == old(src) + 3 && valid == old(valid)
      ensures Triplet(source, old(src)).None? ==> c == 0 && !valid
      ensures !old(valid) ==> !valid
    {
      if At(source, src) != PERCENT || src + 3 > |source| {
        valid := false;
        return 0;
      }
      src := src + 1;
      var high := HexDigit(source[src]);
      if high.None? {
        valid := false;
        return 0;
      }
      src := src + 1;
      var low := HexDigit(source[src]);
      if low.None? {
        valid := false;
        return 0;
      }
      src := src + 1;
      c := (high.value << 4) + low.value;
    }
  }

  lemma {:induction false} OctetsStep(s: Bytes, i: nat)
    ensures Triplet(s, i).Some? ==> Octets(s, i) == [Triplet(s, i).value] + Octets(s, i + 3)
    ensures Triplet(s, i).None? ==> Octets(s, i) == []
  {}

  /** How far percent decoding has come: n octets have been taken, or the triplets have run out
      before the sequence that the first one promises. */
  ghost predicate Decoding(source: Bytes, src: nat, valid: bool, i: nat, n: nat, octets: Bytes) {
    && octets == Octets(source, i)
    && (valid ==> n <= |octets| && src == i + 3 * n && Octets(source, src) == octets[n..])
    && (!valid ==> |octets| < Span(At(octets, 0)))
  }

  lemma {:induction false} DecodingGoesOn(source: Bytes, src: nat, i: nat, n: nat, octets: Bytes)
    requires Decoding(source, src, true, i, n, octets) && n < Span(At(octets, 0))
    ensures Triplet(source, src).Some? ==> n < |octets| && octets[n] == Triplet(source, src).value
    ensures Triplet(source, src).Some? ==> Decoding(source, src + 3, true, i, n + 1, octets)
    ensures Triplet(source, src).None? ==> n == |octets|
  {
    OctetsStep(source, src);
    if Triplet(source, src).Some? {
      assert octets[n..][1..] == octets[n + 1..];
      assert octets[n] == octets[n..][0];
    }
  }

  lemma {:induction false} OneOctetMore(before: Bytes, octets: Bytes, n: nat)
    requires n < |octets|
    ensures before + octets[..n] + [octets[n]] == before + octets[..n + 1]
  {}

  /** The next octet of a sequence goes to the buffer. */
  method NextOctet(input: PercentDecodeStream, buffer: array<bv8>, place: nat, ghost i: nat, ghost n: nat,
        ghost octets: Bytes)
    returns (c: bv8)
    requires place < buffer.Length && n < Span(At(octets, 0))
    requires Decoding(input.source, input.src, input.valid, i, n, octets)
    modifies input, buffer
    ensures Decoding(input.source, input.src, input.valid, i, n + 1, octets)
    ensures input.valid ==> old(input.valid) && n < |octets| && c == octets[n]
    ensures old(input.valid) && !input.valid ==> c == 0
    ensures buffer[..place + 1] == old(buffer[..place]) + [c]
  {
    if input.valid {
      DecodingGoesOn(input.source, input.src, i, n, octets);
    }
    c := input.Take();
    buffer[place] := c;
  }

  /** What is still to be checked of a sequence decides as decoding from its start does. */
  ghost predicate Checking(d: Decoded<bv32>, octets: Bytes, n: nat, codepoint: bv32, ok: bool, masks: seq<bv8>) {
    Follow(octets, n, codepoint, ok, masks, n) == d
  }

  lemma {:induction false} CheckOne(d: Decoded<bv32>, octets: Bytes, n: nat, codepoint: bv32, ok: bool,
        masks: seq<bv8>, k: nat, c: bv8)
    requires k < |masks| && Checking(d, octets, n, codepoint, ok, masks[k..]) && c == At(octets, n)
    ensures Checking(d, octets, n + 1, Copy(codepoint, c), ok && Trans(c, masks[k]), masks[k + 1..])
  {
    assert masks[k..][1..] == masks[k + 1..];
  }

  /** UTF-8 validation of percent-encoded octets, copied to the buffer as they are taken. */
  method ValidateOctets(input: PercentDecodeStream, buffer: array<bv8>, name: nat) returns (ok: bool, len: nat)
    requires input.valid && name < buffer.Length
    requires input.src + 3 <= |input.source| ==> name + 4 <= buffer.Length
    modifies input, buffer
    ensures
      var octets := Octets(input.source, old(input.src));
      var d := Decode(octets, 0);
      && (ok && input.valid <==> d.ok && d.length <= |octets|)
      && (ok && input.valid ==>
            && len == d.length && input.src == old(input.src) + 3 * len
            && name + len <= buffer.Length && buffer[..name + len] == old(buffer[..name]) + octets[..len])
    ensures buffer[..name] == old(buffer[..name])
  {
    ghost var i, octets, before := input.src, Octets(input.source, input.src), buffer[..name];
    assert octets[0..] == octets;
    var c := NextOctet(input, buffer, name, i, 0, octets);
    ok, len := true, 1;
    assert buffer[..name] == buffer[..name + 1][..name] == before;
    assert input.valid ==> [c] == octets[..1];
    DecodeTakes(octets, 0);
    if c & 0x80 != 0 {
      var masks := Masks(GetRange(c));
      StartChecking(Decode(octets, 0), octets, c, masks);
      ok, len := ValidateRest(input, buffer, name, masks, i, octets, before, Payload(c, GetRange(c)), Decode(octets, 0));
    }
  }

  lemma {:induction false} StartChecking(d: Decoded<bv32>, octets: Bytes, c: bv8, masks: seq<bv8>)
    requires c == At(octets, 0) && c & 0x80 != 0 && masks == Masks(GetRange(c)) && d == Decode(octets, 0)
    ensures Checking(d, octets, 1, Payload(c, GetRange(c)), |masks| > 0, masks)
    ensures |masks| <= 3 && Span(c) == 1 + |masks|
  {}

  /** The octets after the first one, each against its mask. */
  method ValidateRest(input: PercentDecodeStream, buffer: array<bv8>, name: nat, masks: seq<bv8>,
                      ghost i: nat, ghost octets: Bytes, ghost before: Bytes, ghost payload: bv32, ghost d: Decoded<bv32>)
    returns (ok: bool, len: nat)
    requires input.valid && Decoding(input.source, input.src, input.valid, i, 1, octets)
    requires |masks| <= 3 && Span(At(octets, 0)) == 1 + |masks| == d.length
    requires Checking(d, octets, 1, payload, |masks| > 0, masks)
    requires name + 4 <= buffer.Length && |before| == name && buffer[..name + 1] == before + octets[..1]
    modifies input, buffer
    ensures ok && input.valid <==> d.ok && d.length <= |octets|
    ensures ok && input.valid ==>
      && len == d.length && input.src == i + 3 * len
      && name + len <= buffer.Length && buffer[..name + len] == before + octets[..len]
    ensures buffer[..name] == before
  {
    ok, len := |masks| > 0, 1;
    ghost var codepoint := payload;
    assert masks[0..] == masks;
    while len <= |masks|
      invariant 1 <= len <= 1 + |masks|
      invariant Decoding(input.source, input.src, input.valid, i, len, octets)
      invariant input.valid ==> Checking(d, octets, len, codepoint, ok, masks[len - 1..])
      invariant Copied(buffer[..name + len], before, octets, len, input.valid)
    {
      var c := NextMasked(input, buffer, name, i, len, octets, before, codepoint, ok, masks, d);
      codepoint := Copy(codepoint, c);
      ok := ok && Trans(c, masks[len - 1]);
      len := len + 1;
    }
    if input.valid {
      Checked(d, octets, len, codepoint, ok, masks);
    }
    assert buffer[..name] == buffer[..name + len][..name];
  }

  /** What has been put behind a name: as many octets as were taken. */
  ghost predicate Copied(prefix: Bytes, before: Bytes, octets: Bytes, n: nat, valid: bool) {
    && |prefix| == |before| + n && before <= prefix
    && (valid ==> n <= |octets| && prefix == before + octets[..n])
  }

  lemma {:induction false} CopiedMore(prefix: Bytes, before: Bytes, octets: Bytes, n: nat, valid: bool, c: bv8, valid': bool)
    requires Copied(prefix, before, octets, n, valid)
    requires valid' ==> valid && n < |octets| && c == octets[n]
    ensures Copied(prefix + [c], before, octets, n + 1, valid')
  {
    if valid' {
      OneOctetMore(before, octets, n);
    }
  }

  /** One octet more, checked against its mask and copied. */
  method NextMasked(input: PercentDecodeStream, buffer: array<bv8>, name: nat, ghost i: nat, n: nat, ghost octets: Bytes,
                    ghost before: Bytes, ghost codepoint: bv32, ghost ok: bool, ghost masks: seq<bv8>, ghost d: Decoded<bv32>)
    returns (c: bv8)
    requires 1 <= n <= |masks| && n < Span(At(octets, 0)) && name + n < buffer.Length
    requires Decoding(input.source, input.src, input.valid, i, n, octets)
    requires input.valid ==> Checking(d, octets, n, codepoint, ok, masks[n - 1..])
    requires Copied(buffer[..name + n], before, octets, n, input.valid)
    modifies input, buffer
    ensures Decoding(input.source, input.src, input.valid, i, n + 1, octets)
    ensures input.valid ==> Checking(d, octets, n + 1, Copy(codepoint, c), ok && Trans(c, masks[n - 1]), masks[n..])
    ensures Copied(buffer[..name + n + 1], before, octets, n + 1, input.valid)
  {
    ghost var prefix, valid := buffer[..name + n], input.valid;
    c := NextOctet(input, buffer, name + n, i, n, octets);
    CopiedMore(prefix, before, octets, n, valid, c, input.valid);
    if input.valid {
      CheckOne(d, octets, n, codepoint, ok, masks, n - 1, c);
    }
  }

  lemma {:induction false} Checked(d: Decoded<bv32>, octets: Bytes, n: nat, codepoint: bv32, ok: bool, masks: seq<bv8>)
    requires n == 1 + |masks| && Checking(d, octets, n, codepoint, ok, masks[n - 1..])
    ensures d == Decoded(ok, codepoint, n)
  {}

  // ----- Names -----

  /** One character of a name goes to the buffer, or the sequence of octets that is percent-encoded
      here. On an error, the offset is returned in place of the next position. */
  method ReadUnitInto(source: Bytes, uriFragment: bool, i: nat, buffer: array<bv8>, name: nat)
    returns (error: Option<PointerError>, next: nat, end: nat)
    requires i < |source| == buffer.Length
    requires name + (if uriFragment then 2 else 1) <= i
    modifies buffer
    ensures
      match ReadUnit(source, uriFragment, i)
      case Good(n, bytes) =>
        && error == None && next == n && end == name + |bytes| <= buffer.Length
        && buffer[..end] == old(buffer[..name]) + bytes
      case Bad(e, offset) => error == Some(e) && next == offset
    ensures buffer[..name] == old(buffer[..name])
  {
    var c := source[i];
    next, end := i, name;
    if uriFragment {
      if c == PERCENT {
        var input := new PercentDecodeStream(source, i);
        var ok, len := ValidateOctets(input, buffer, name);
        if !ok || !input.valid {
          return Some(InvalidPercentEncoding), i, name;
        }
        assert buffer[..name + 1] == buffer[..name + len][..name + 1];
        next := input.src - 1;
        if len != 1 {
          return None, next + 1, name + len;
        }
        c := buffer[name];
        assert c == Octets(source, i)[0];
      } else if NeedPercentEncode(c) {
        return Some(CharacterMustPercentEncode), i, name;
      }
    }
    next := next + 1;
    if c == TILDE {
      if next < |source| && source[next] == ZERO {
        c := TILDE;
      } else if next < |source| && source[next] == ONE {
        c := SLASH;
      } else {
        return Some(InvalidEscape), next, name;
      }
      next := next + 1;
    }
    buffer[name] := c;
    end := name + 1;
    error := None;
  }

  lemma {:induction false} DigitsOfUnit(s: Bytes, uriFragment: bool, i: nat, all: Bytes)
    requires i < |s| && ReadUnit(s, uriFragment, i).Good?
    ensures
      var bytes := ReadUnit(s, uriFragment, i).bytes;
      |bytes| > 0 && (AllDigits(all + bytes) <==> AllDigits(all) && |bytes| == 1 && IsDigit(bytes[0]))
  {
    ReadUnitMovesOn(s, uriFragment, i);
    var bytes := ReadUnit(s, uriFragment, i).bytes;
    DigitsApart(all, bytes);
    if |bytes| > 1 {
      LongUnitIsOctets(s, uriFragment, i);
    }
  }

  lemma {:induction false} DigitsApart(a: Bytes, b: Bytes)
    ensures AllDigits(a + b) <==> AllDigits(a) && AllDigits(b)
  {
    if AllDigits(a + b) {
      assert forall i | 0 <= i < |a| :: a[i] == (a + b)[i];
      assert forall i | 0 <= i < |b| :: b[i] == (a + b)[|a| + i];
    }
  }

  /** Only a sequence of several octets is more than one byte, and its lead octet is no digit. */
  lemma {:induction false} LongUnitIsOctets(s: Bytes, uriFragment: bool, i: nat)
    requires i < |s| && ReadUnit(s, uriFragment, i).Good? && |ReadUnit(s, uriFragment, i).bytes| > 1
    ensures !IsDigit(ReadUnit(s, uriFragment, i).bytes[0])
  {
    DecodeTakes(Octets(s, i), 0);
    LeadIsNoDigit(Octets(s, i)[0]);
  }

  lemma {:induction false} LeadIsNoDigit(c: bv8)
    requires c & 0x80 != 0
    ensures !IsDigit(c)
  {}

  /** The characters of a name, up to a slash or the end, and whether all are digits. */
  method ReadNameInto(source: Bytes, uriFragment: bool, i: nat, buffer: array<bv8>, name: nat)
    returns (error: Option<PointerError>, next: nat, end: nat, isNumber: bool)
    requires i <= |source| == buffer.Length
    requires name + (if uriFragment then 2 else 1) <= i
    modifies buffer
    ensures
      match ReadName(source, uriFragment, i, [])
      case Good(n, all) =>
        && error == None && next == n && end == name + |all| && end + (if uriFragment then 2 else 1) <= next <= |source|
        && buffer[..end] == old(buffer[..name]) + all && isNumber == AllDigits(all)
      case Bad(e, offset) => error == Some(e) && next == offset
  {
    ghost var all: Bytes, before := [], buffer[..name];
    next, end, isNumber, error := i, name, true, None;
    while next < |source| && source[next] != SLASH
      invariant error == None && i <= next <= |source| && end + (if uriFragment then 2 else 1) <= next
      invariant end == name + |all| && buffer[..end] == before + all
      invariant isNumber == AllDigits(all)
      invariant ReadName(source, uriFragment, next, all) == ReadName(source, uriFragment, i, [])
      decreases |source| - next
    {
      ghost var unit := ReadUnit(source, uriFragment, next);
      ghost var at := next;
      var start := end;
      error, next, end := ReadUnitInto(source, uriFragment, next, buffer, end);
      if error != None {
        assert ReadName(source, uriFragment, at, all) == Bad(unit.error, unit.offset);
        return;
      }
      ReadUnitMovesOn(source, uriFragment, at);
      ReadOneUnit(source, uriFragment, at, next, unit.bytes, all);
      DigitsOfUnit(source, uriFragment, at, all);
      UnitInBuffer(buffer[..end], before, all, unit.bytes, start);
      if end != start + 1 || !IsDigit(buffer[start]) {
        isNumber := false;
      }
      all := all + unit.bytes;
    }
  }

  lemma {:induction false} UnitInBuffer(buffer: Bytes, before: Bytes, all: Bytes, bytes: Bytes, start: nat)
    requires buffer == before + all + bytes && start == |before + all| && |bytes| > 0
    ensures buffer == before + (all + bytes) && buffer[start] == bytes[0]
  {
    assert buffer[start..] == bytes;
  }

  /** The index that a name of digits spells, as the conversion to SizeType computes it. */
  method ToIndex(buffer: array<bv8>, start: nat, length: nat, isNumber: bool) returns (index: nat)
    requires start + length <= buffer.Length && isNumber == AllDigits(buffer[start..start + length])
    ensures index == IndexOf(buffer[start..start + length])
  {
    ghost var name := buffer[start..start + length];
    var number := isNumber;
    if length == 0 {
      number := false;
    }
    if number && length > 1 && buffer[start] == ZERO {
      number := false;
    }
    assert length > 0 ==> name[0] == buffer[start];
    assert number == IsNumeral(name);
    var n: nat := 0;
    if number {
      assert name[0..] == name;
      var j := 0;
      while j < length
        invariant j <= length && n < SIZE_TYPE
        invariant number ==> Accumulate(n, name[j..]) == Accumulate(0, name)
        invariant !number ==> j == length && Accumulate(0, name).None?
      {
        assert name[j] == buffer[start + j] && name[j..][1..] == name[j + 1..];
        var m := (n * 10 + Digit(buffer[start + j])) % SIZE_TYPE;
        if m < n {
          number := false;
          j := length;
        } else {
          n := m;
          j := j + 1;
        }
      }
    }
    index := if number then n else INVALID_INDEX;
  }

  // ----- The pointer -----

  /** Raw tokens lie in a buffer one behind the other, each with a NUL behind its name, and stand
      for given tokens. */
  ghost predicate Holds(raw: seq<RawToken>, buffer: Bytes, tokens: seq<Token>) {
    && |raw| == |tokens|
    && forall k | 0 <= k < |raw| :: HoldsToken(raw[k], buffer, tokens[k])
  }

  predicate HoldsToken(raw: RawToken, buffer: Bytes, token: Token) {
    && raw.start + raw.length < |buffer|
    && buffer[raw.start..raw.start + raw.length] == token.name
    && buffer[raw.start + raw.length] == 0
    && raw.index == token.index
  }

  lemma {:induction false} HoldsMore(raw: seq<RawToken>, buffer: Bytes, tokens: seq<Token>, name: Bytes, t: RawToken)
    requires Holds(raw, buffer, tokens)
    requires t == RawToken(|buffer|, |name|, IndexOf(name))
    ensures Holds(raw + [t], buffer + name + [0], tokens + [TokenOf(name)])
  {
    var after := buffer + name + [0];
    forall k | 0 <= k < |raw| ensures HoldsToken(raw[k], after, tokens[k]) {
      assert HoldsToken(raw[k], buffer, tokens[k]);
      assert after[raw[k].start..raw[k].start + raw[k].length] == buffer[raw[k].start..raw[k].start + raw[k].length];
    }
    assert after[t.start..t.start + t.length] == name;
  }

  lemma {:induction false} TokenNeedsSlash(s: Bytes, i: nat)
    requires i < |s| && s[i] == SLASH
    ensures Slashes(s, i) == 1 + Slashes(s, i + 1)
  {}

  class GenericPointer {
    var tokens: array<RawToken>
    var nameBuffer: array<bv8>
    var tokenCount: nat
    var parseErrorCode: Option<PointerError>
    var parseErrorOffset: nat

    /** What the pointer stands for. */
    ghost predicate Represents(pointer: Pointer)
      reads this, tokens, nameBuffer
    {
      match pointer
      case Valid(ts) =>
        && parseErrorCode == None && tokenCount == |ts| == tokens.Length
        && Holds(tokens[..], nameBuffer[..], ts)
      case Invalid(error, offset) =>
        parseErrorCode == Some(error) && parseErrorOffset == offset && tokenCount == 0
    }

    /** As many tokens are allocated as the source has slashes, and a name buffer as long as the
        source; both are filled without a write outside them, and all tokens are used. */
    constructor Parse(source: Bytes)
      ensures Represents(PointerSyntax.Parse(source))
      ensures parseErrorCode == None ==> tokens.Length == Slashes(source, 0)
    {
      var count := CountSlashes(source);
      var toks := new RawToken[count](_ => RawToken(0, 0, 0));
      var buffer := new bv8[|source|];
      var used, error, offset := Fill(source, toks, buffer);
      if error == None {
        tokens, nameBuffer, tokenCount := toks, buffer, used;
      } else {
        tokens, nameBuffer, tokenCount := new RawToken[0], new bv8[0], 0;
      }
      parseErrorCode, parseErrorOffset := error, offset;
      new;
      if error == None {
        ParsedPointer(source);
      }
    }
  }

  method CountSlashes(source: Bytes) returns (count: nat)
    ensures count == Slashes(source, 0)
  {
    count := 0;
    var s := 0;
    while s < |source|
      invariant s <= |source| && count + Slashes(source, s) == Slashes(source, 0)
    {
      if source[s] == SLASH {
        count := count + 1;
      }
      s := s + 1;
    }
  }

  /** The tokens one after the other. */
  method Fill(source: Bytes, toks: array<RawToken>, buffer: array<bv8>)
    returns (used: nat, error: Option<PointerError>, offset: nat)
    requires toks.Length == Slashes(source, 0) && buffer.Length == |source| && toks as object != buffer as object
    modifies toks, buffer
    ensures
      match PointerSyntax.Parse(source)
      case Valid(ts) => error == None && used == |ts| && used <= toks.Length && Holds(toks[..used], buffer[..], ts)
      case Invalid(e, o) => error == Some(e) && offset == o
  {
    var uriFragment := |source| > 0 && source[0] == HASH;
    var i: nat, name: nat := if uriFragment then 1 else 0, 0;
    used, error, offset := 0, None, 0;
    if i != |source| && source[i] != SLASH {
      return 0, Some(TokenMustBeginWithSolidus), i;
    }
    ghost var read: seq<Token> := [];
    assert toks[..0] == [];
    while i < |source|
      invariant error == None && EndsName(source, i)
      invariant name + (if uriFragment then 1 else 0) <= i
      invariant used + Slashes(source, i) == toks.Length
      invariant Holds(toks[..used], buffer[..name], read)
      invariant ReadTokens(source, uriFragment, i, read) == PointerSyntax.Parse(source)
      decreases |source| - i
    {
      TokenNeedsSlash(source, i);
      error, i, name, read := FillToken(source, uriFragment, i, toks, used, buffer, name, read);
      if error != None {
        offset := i;
        return;
      }
      used := used + 1;
    }
    HoldsInAll(toks[..used], buffer[..name], read, buffer[..]);
  }

  /** One token, from its slash to the next one. */
  method FillToken(source: Bytes, uriFragment: bool, i: nat, toks: array<RawToken>, used: nat, buffer: array<bv8>, name: nat,
                   ghost read: seq<Token>)
    returns (error: Option<PointerError>, next: nat, name': nat, ghost read': seq<Token>)
    requires i < |source| == buffer.Length && source[i] == SLASH && used < toks.Length
    requires toks as object != buffer as object
    requires name + (if uriFragment then 1 else 0) <= i
    requires Holds(toks[..used], buffer[..name], read)
    modifies toks, buffer
    ensures error == None ==>
      && i < next && EndsName(source, next) && name' + (if uriFragment then 1 else 0) <= next
      && Slashes(source, i + 1) == Slashes(source, next)
      && Holds(toks[..used + 1], buffer[..name'], read')
      && ReadTokens(source, uriFragment, i, read) == ReadTokens(source, uriFragment, next, read')
    ensures error != None ==> ReadTokens(source, uriFragment, i, read) == Invalid(error.value, next)
  {
    ghost var before := buffer[..name];
    var end, isNumber;
    error, next, end, isNumber := ReadNameInto(source, uriFragment, i + 1, buffer, name);
    if error != None {
      return error, next, name, read;
    }
    ghost var all := ReadName(source, uriFragment, i + 1, []).bytes;
    NameHasNoSlash(source, uriFragment, i + 1, []);
    ReadNameMovesOn(source, uriFragment, i + 1, []);
    ReadOneToken(source, uriFragment, i, next, all, read);
    read' := read + [TokenOf(all)];
    name' := end + 1;
    NameInBuffer(buffer[..end], before, all, buffer[name..end]);
    PutToken(toks, used, buffer, name, end, isNumber, read, before, all);
  }

  /** The terminator and the token itself. */
  method PutToken(toks: array<RawToken>, used: nat, buffer: array<bv8>, name: nat, end: nat, isNumber: bool,
                  ghost read: seq<Token>, ghost before: Bytes, ghost all: Bytes)
    requires used < toks.Length && name <= end < buffer.Length && |before| == name
    requires toks as object != buffer as object
    requires buffer[..end] == before + all && buffer[name..end] == all && isNumber == AllDigits(all)
    requires Holds(toks[..used], before, read)
    modifies toks, buffer
    ensures Holds(toks[..used + 1], buffer[..end + 1], read + [TokenOf(all)])
  {
    var index := ToIndex(buffer, name, end - name, isNumber);
    buffer[end] := 0;
    toks[used] := RawToken(name, end - name, index);
    HoldsMore(toks[..used], before, read, all, toks[used]);
    assert toks[..used + 1] == toks[..used] + [toks[used]];
    assert buffer[..end + 1] == before + all + [0];
  }

  lemma {:induction false} NameInBuffer(buffer: Bytes, before: Bytes, all: Bytes, name: Bytes)
    requires buffer == before + all && name == buffer[|before|..]
    ensures name == all
  {}

  lemma {:induction false} HoldsInAll(raw: seq<RawToken>, buffer: Bytes, tokens: seq<Token>, all: Bytes)
    requires Holds(raw, buffer, tokens) && buffer <= all
    ensures Holds(raw, all, tokens)
  {
    forall k | 0 <= k < |raw| ensures HoldsToken(raw[k], all, tokens[k]) {
      assert HoldsToken(raw[k], buffer, tokens[k]);
      assert all[raw[k].start..raw[k].start + raw[k].length] == buffer[raw[k].start..raw[k].start + raw[k].length];
    }
  }
}
