/** What the parsers accept, characterised by documents: a text parses exactly when, whitespace
    apart, it spells an allowed document, and then the events are those of the tree it denotes. */
module Grammar {
  import opened Basics
  import opened JsonSyntax
  import opened JsonTree
  import opened Descent

  /** Reading the first token of a text whose head is not whitespace. */
  lemma {:induction false} TakeHead(ts: seq<Token>)
    requires ts != [] && ts[0] != Space
    ensures Strip(ts) == [ts[0]] + Strip(ts[1..])
  {}

  lemma {:induction false} FindHead(ts: seq<Token>, t: Token, more: seq<Token>)
    requires ts != [] ==> ts[0] != Space
    requires Strip(ts) == [t] + more
    ensures ts != [] && ts[0] == t && Strip(ts[1..]) == more
  {
    if ts != [] {
      assert Strip(ts)[1..] == Strip(ts[1..]);
      assert Strip(ts)[1..] == more;
    }
  }

  // ----- Soundness: what is accepted is a document -----

  lemma {:induction false} ValueIsDoc(fl: Flags, h: Handler, ts: seq<Token>, es: seq<Event>) returns (d: Doc)
    requires ts != [] ==> ts[0] != Space
    requires ParseValue(fl, h, ts, es).Done?
    ensures Allowed(fl, d)
    ensures Strip(ts) == Spell(d, Strip(ParseValue(fl, h, ts, es).rest))
    ensures ParseValue(fl, h, ts, es).events == Accept(es, Meaning(d))
    decreases |ts|, 1
  {
    TakeHead(ts);
    match ts[0] {
      case LeftBracket =>
        d := ArrayIsDoc(fl, h, ts[1..], es);
      case LeftBrace =>
        d := ObjectIsDoc(fl, h, ts[1..], es);
      case Str(text) =>
        d := TextDoc(text.value);
      case NumberLit(n) =>
        d := AtomDoc(Num(n.value));
      case FalseLit(_) =>
        d := AtomDoc(Bool(false));
      case TrueLit(_) =>
        d := AtomDoc(Bool(true));
      case NullLit(_) =>
        d := AtomDoc(Null);
    }
  }

  lemma {:induction false} ArrayIsDoc(fl: Flags, h: Handler, ts: seq<Token>, es: seq<Event>) returns (d: Doc)
    requires ParseArray(fl, h, ts, es).Done?
    ensures Allowed(fl, d)
    ensures [LeftBracket] + Strip(ts) == Spell(d, Strip(ParseArray(fl, h, ts, es).rest))
    ensures ParseArray(fl, h, ts, es).events == Accept(es, Meaning(d))
    decreases |ts|, 3
  {
    var rest := Skip(ts);
    StripSkip(ts);
    if rest != [] && rest[0].RightBracket? {
      d := ArrayDoc([], false);
      TakeHead(rest);
    } else {
      var ds, trailing := ElementsAreDocs(fl, h, rest, es + [StartArray], 0);
      d := ArrayDoc(ds, trailing);
    }
  }

  lemma {:induction false} ElementsAreDocs(fl: Flags, h: Handler, ts: seq<Token>, es: seq<Event>, count: nat)
    returns (ds: seq<Doc>, trailing: bool)
    requires ts != [] ==> ts[0] != Space
    requires count < SIZE_TYPE
    requires ParseElements(fl, h, ts, es, count).Done?
    ensures ds != [] && ElementsAllowed(fl, ds) && (trailing ==> fl.trailingCommas)
    ensures Strip(ts) == SpellElements(ds, trailing, Strip(ParseElements(fl, h, ts, es, count).rest))
    ensures ParseElements(fl, h, ts, es, count).events
         == AcceptElements(es, ElementMeanings(ds)) + [EndArray((count + |ds|) % SIZE_TYPE)]
    decreases |ts|, 2
  {
    var v := ParseValue(fl, h, ts, es);
    var d := ValueIsDoc(fl, h, ts, es);
    StripSkip(v.rest);
    var ds';
    ds', trailing := AfterElementAreDocs(fl, h, Skip(v.rest), v.events, Inc(count));
    ds := [d] + ds';
    assert ds[1..] == ds';
    assert ElementMeanings(ds) == [Meaning(d)] + ElementMeanings(ds');
    CountAll(count, |ds'|);
  }

  lemma {:induction false} CountAll(count: nat, more: nat)
    ensures (Inc(count) + more) % SIZE_TYPE == (count + (1 + more)) % SIZE_TYPE
  {}

  /** The rest of the array: the elements still to come, if any, and its end. */
  lemma {:induction false} AfterElementAreDocs(fl: Flags, h: Handler, ts: seq<Token>, es: seq<Event>, count: nat)
    returns (ds: seq<Doc>, trailing: bool)
    requires ts != [] ==> ts[0] != Space
    requires count < SIZE_TYPE
    requires ElementsAfterValue(fl, h, ts, es, count).Done?
    ensures ElementsAllowed(fl, ds) && (trailing ==> fl.trailingCommas)
    ensures forall d :: Strip(ts) == AfterElement([d] + ds, trailing, Strip(ElementsAfterValue(fl, h, ts, es, count).rest))
    ensures ElementsAfterValue(fl, h, ts, es, count).events
         == AcceptElements(es, ElementMeanings(ds)) + [EndArray((count + |ds|) % SIZE_TYPE)]
    decreases |ts|, 0
  {
    TakeHead(ts);
    ds, trailing := [], false;
    if ts[0].Comma? {
      var rest := Skip(ts[1..]);
      StripSkip(ts[1..]);
      if fl.trailingCommas && rest != [] && rest[0].RightBracket? {
        trailing := true;
        TakeHead(rest);
      } else {
        ds, trailing := ElementsAreDocs(fl, h, rest, es, count);
        assert forall d :: ([d] + ds)[1..] == ds;
      }
    }
  }

  lemma {:induction false} ObjectIsDoc(fl: Flags, h: Handler, ts: seq<Token>, es: seq<Event>) returns (d: Doc)
    requires ParseObject(fl, h, ts, es).Done?
    ensures Allowed(fl, d)
    ensures [LeftBrace] + Strip(ts) == Spell(d, Strip(ParseObject(fl, h, ts, es).rest))
    ensures ParseObject(fl, h, ts, es).events == Accept(es, Meaning(d))
    decreases |ts|, 3
  {
    var rest := Skip(ts);
    StripSkip(ts);
    if rest != [] && rest[0].RightBrace? {
      d := ObjectDoc([], false);
      TakeHead(rest);
    } else {
      var ms, trailing := MembersAreDocs(fl, h, rest, es + [StartObject], 0);
      d := ObjectDoc(ms, trailing);
    }
  }

  lemma {:induction false} MembersAreDocs(fl: Flags, h: Handler, ts: seq<Token>, es: seq<Event>, count: nat)
    returns (ms: seq<MemberDoc>, trailing: bool)
    requires ts != [] ==> ts[0] != Space
    requires count < SIZE_TYPE
    requires ParseMembers(fl, h, ts, es, count).Done?
    ensures ms != [] && MembersAllowed(fl, ms) && (trailing ==> fl.trailingCommas)
    ensures Strip(ts) == SpellMembers(ms, trailing, Strip(ParseMembers(fl, h, ts, es, count).rest))
    ensures ParseMembers(fl, h, ts, es, count).events
         == AcceptMembers(es, MemberMeanings(ms)) + [EndObject((count + |ms|) % SIZE_TYPE)]
    decreases |ts|, 1
  {
    var name := ts[0].text.value;
    TakeHead(ts);
    StripSkip(ts[1..]);
    var d, ms';
    d, ms', trailing := AfterNameAreDocs(fl, h, Skip(ts[1..]), es + [Key(name)], count);
    ms := [MemberDoc(name, d)] + ms';
    assert ms[1..] == ms';
    assert MemberMeanings(ms) == [Member(name, Meaning(d))] + MemberMeanings(ms');
  }

  lemma {:induction false} AfterNameAreDocs(fl: Flags, h: Handler, ts: seq<Token>, es: seq<Event>, count: nat)
    returns (d: Doc, ms: seq<MemberDoc>, trailing: bool)
    requires ts != [] ==> ts[0] != Space
    requires count < SIZE_TYPE
    requires MembersAfterName(fl, h, ts, es, count).Done?
    ensures Allowed(fl, d) && MembersAllowed(fl, ms) && (trailing ==> fl.trailingCommas)
    ensures forall m :: Strip(ts) ==
              [Colon] + Spell(d, AfterMember([m] + ms, trailing, Strip(MembersAfterName(fl, h, ts, es, count).rest)))
    ensures MembersAfterName(fl, h, ts, es, count).events
         == AcceptMembers(Accept(es, Meaning(d)), MemberMeanings(ms)) + [EndObject((count + (1 + |ms|)) % SIZE_TYPE)]
    decreases |ts|, 0
  {
    TakeHead(ts);
    StripSkip(ts[1..]);
    var v := ParseValue(fl, h, Skip(ts[1..]), es);
    d := ValueIsDoc(fl, h, Skip(ts[1..]), es);
    StripSkip(v.rest);
    ms, trailing := AfterMemberAreDocs(fl, h, Skip(v.rest), v.events, Inc(count));
    CountAll(count, |ms|);
  }

  lemma {:induction false} AfterMemberAreDocs(fl: Flags, h: Handler, ts: seq<Token>, es: seq<Event>, count: nat)
    returns (ms: seq<MemberDoc>, trailing: bool)
    requires ts != [] ==> ts[0] != Space
    requires count < SIZE_TYPE
    requires MembersAfterValue(fl, h, ts, es, count).Done?
    ensures MembersAllowed(fl, ms) && (trailing ==> fl.trailingCommas)
    ensures forall m :: Strip(ts) == AfterMember([m] + ms, trailing, Strip(MembersAfterValue(fl, h, ts, es, count).rest))
    ensures MembersAfterValue(fl, h, ts, es, count).events
         == AcceptMembers(es, MemberMeanings(ms)) + [EndObject((count + |ms|) % SIZE_TYPE)]
    decreases |ts|, 0
  {
    TakeHead(ts);
    ms, trailing := [], false;
    if ts[0].Comma? {
      var rest := Skip(ts[1..]);
      StripSkip(ts[1..]);
      if fl.trailingCommas && rest != [] && rest[0].RightBrace? {
        trailing := true;
        TakeHead(rest);
      } else {
        ms, trailing := MembersAreDocs(fl, h, rest, es, count);
        assert forall m :: ([m] + ms)[1..] == ms;
      }
    }
  }

  // ----- Completeness: every document is accepted -----

  lemma {:induction false} DocIsValue(fl: Flags, h: Handler, ts: seq<Token>, es: seq<Event>, d: Doc, more: seq<Token>)
    requires NeverStops(h) && Allowed(fl, d)
    requires ts != [] ==> ts[0] != Space
    requires Strip(ts) == Spell(d, more)
    ensures var o := ParseValue(fl, h, ts, es);
            o.Done? && Strip(o.rest) == more && o.events == Accept(es, Meaning(d))
    decreases d, 1
  {
    FindHead(ts, FirstToken(d), Spell(d, more)[1..]);
    match d {
      case AtomDoc(s) =>
      case TextDoc(text) =>
      case ArrayDoc(_, _) => DocIsArray(fl, h, ts[1..], es, d, more);
      case ObjectDoc(_, _) => DocIsObject(fl, h, ts[1..], es, d, more);
    }
  }

  lemma {:induction false} DocIsArray(fl: Flags, h: Handler, ts: seq<Token>, es: seq<Event>, d: Doc, more: seq<Token>)
    requires NeverStops(h) && d.ArrayDoc? && Allowed(fl, d)
    requires Strip(ts) == Spell(d, more)[1..]
    ensures var o := ParseArray(fl, h, ts, es);
            o.Done? && Strip(o.rest) == more && o.events == Accept(es, Meaning(d))
    decreases d, 0
  {
    StripSkip(ts);
    var rest := Skip(ts);
    if d.elements == [] {
      FindHead(rest, RightBracket, more);
    } else {
      FindHead(rest, FirstToken(d.elements[0]), Strip(rest)[1..]);
      DocsAreElements(fl, h, rest, es + [StartArray], 0, d.elements, d.trailing, more);
    }
  }

  lemma {:induction false} DocIsObject(fl: Flags, h: Handler, ts: seq<Token>, es: seq<Event>, d: Doc, more: seq<Token>)
    requires NeverStops(h) && d.ObjectDoc? && Allowed(fl, d)
    requires Strip(ts) == Spell(d, more)[1..]
    ensures var o := ParseObject(fl, h, ts, es);
            o.Done? && Strip(o.rest) == more && o.events == Accept(es, Meaning(d))
    decreases d, 0
  {
    StripSkip(ts);
    var rest := Skip(ts);
    if d.members == [] {
      FindHead(rest, RightBrace, more);
    } else {
      FindHead(rest, Str(Good(d.members[0].name)), Strip(rest)[1..]);
      DocsAreMembers(fl, h, rest, es + [StartObject], 0, d.members, d.trailing, more);
    }
  }

  lemma {:induction false} AcceptFirstElement(es: seq<Event>, ds: seq<Doc>)
    requires ds != []
    ensures AcceptElements(es, ElementMeanings(ds)) == AcceptElements(Accept(es, Meaning(ds[0])), ElementMeanings(ds[1..]))
  {
    assert ElementMeanings(ds)[1..] == ElementMeanings(ds[1..]);
  }

  lemma {:induction false} AcceptFirstMember(es: seq<Event>, ms: seq<MemberDoc>)
    requires ms != []
    ensures AcceptMembers(es, MemberMeanings(ms))
         == AcceptMembers(Accept(es + [Key(ms[0].name)], Meaning(ms[0].value)), MemberMeanings(ms[1..]))
  {
    assert MemberMeanings(ms)[1..] == MemberMeanings(ms[1..]);
  }

  lemma {:induction false} DocsAreElements(fl: Flags, h: Handler, ts: seq<Token>, es: seq<Event>, count: nat,
                                           ds: seq<Doc>, trailing: bool, more: seq<Token>)
    requires NeverStops(h) && ds != [] && ElementsAllowed(fl, ds) && (trailing ==> fl.trailingCommas)
    requires ts != [] ==> ts[0] != Space
    requires count < SIZE_TYPE
    requires Strip(ts) == SpellElements(ds, trailing, more)
    ensures var o := ParseElements(fl, h, ts, es, count);
            && o.Done? && Strip(o.rest) == more
            && o.events == AcceptElements(es, ElementMeanings(ds)) + [EndArray((count + |ds|) % SIZE_TYPE)]
    decreases ds, 0
  {
    var rest, es' := DocIsElement(fl, h, ts, es, count, ds[0], AfterElement(ds, trailing, more));
    CountAll(count, |ds| - 1);
    AcceptFirstElement(es, ds);
    DocsFollowElement(fl, h, rest, es', Inc(count), ds, trailing, more);
  }

  /** An element, and the whitespace after it. */
  lemma {:induction false} DocIsElement(fl: Flags, h: Handler, ts: seq<Token>, es: seq<Event>, count: nat,
                                        d: Doc, more: seq<Token>)
    returns (rest: seq<Token>, es': seq<Event>)
    requires NeverStops(h) && Allowed(fl, d)
    requires ts != [] ==> ts[0] != Space
    requires Strip(ts) == Spell(d, more)
    ensures ParseElements(fl, h, ts, es, count) == ElementsAfterValue(fl, h, rest, es', Inc(count))
    ensures (rest != [] ==> rest[0] != Space) && Strip(rest) == more && es' == Accept(es, Meaning(d))
    decreases d, 2
  {
    DocIsValue(fl, h, ts, es, d, more);
    var v := ParseValue(fl, h, ts, es);
    StripSkip(v.rest);
    rest, es' := Skip(v.rest), v.events;
  }

  lemma {:induction false} DocsFollowElement(fl: Flags, h: Handler, ts: seq<Token>, es: seq<Event>, count: nat,
                                             ds: seq<Doc>, trailing: bool, more: seq<Token>)
    requires NeverStops(h) && ds != [] && ElementsAllowed(fl, ds) && (trailing ==> fl.trailingCommas)
    requires ts != [] ==> ts[0] != Space
    requires count < SIZE_TYPE
    requires Strip(ts) == AfterElement(ds, trailing, more)
    ensures var o := ElementsAfterValue(fl, h, ts, es, count);
            && o.Done? && Strip(o.rest) == more
            && o.events == AcceptElements(es, ElementMeanings(ds[1..])) + [EndArray((count + |ds[1..]|) % SIZE_TYPE)]
    decreases ds[1..], 2
  {
    if |ds| == 1 && !trailing {
      FindHead(ts, RightBracket, more);
    } else {
      FindHead(ts, Comma, AfterElement(ds, trailing, more)[1..]);
      StripSkip(ts[1..]);
      var rest := Skip(ts[1..]);
      if |ds| == 1 {
        FindHead(rest, RightBracket, more);
      } else {
        FindHead(rest, FirstToken(ds[1]), Strip(rest)[1..]);
        DocsAreElements(fl, h, rest, es, count, ds[1..], trailing, more);
      }
    }
  }

  lemma {:induction false} DocsAreMembers(fl: Flags, h: Handler, ts: seq<Token>, es: seq<Event>, count: nat,
                                          ms: seq<MemberDoc>, trailing: bool, more: seq<Token>)
    requires NeverStops(h) && ms != [] && MembersAllowed(fl, ms) && (trailing ==> fl.trailingCommas)
    requires ts != [] ==> ts[0] != Space
    requires count < SIZE_TYPE
    requires Strip(ts) == SpellMembers(ms, trailing, more)
    ensures var o := ParseMembers(fl, h, ts, es, count);
            && o.Done? && Strip(o.rest) == more
            && o.events == AcceptMembers(es, MemberMeanings(ms)) + [EndObject((count + |ms|) % SIZE_TYPE)]
    decreases ms, 3
  {
    var rest, es' := DocIsMember(fl, h, ts, es, count, ms[0], AfterMember(ms, trailing, more));
    CountAll(count, |ms| - 1);
    AcceptFirstMember(es, ms);
    DocsFollowMember(fl, h, rest, es', Inc(count), ms, trailing, more);
  }

  /** A member's name, colon and value, and the whitespace after them. */
  lemma {:induction false} DocIsMember(fl: Flags, h: Handler, ts: seq<Token>, es: seq<Event>, count: nat,
                                       m: MemberDoc, more: seq<Token>)
    returns (rest: seq<Token>, es': seq<Event>)
    requires NeverStops(h) && Allowed(fl, m.value)
    requires ts != [] ==> ts[0] != Space
    requires Strip(ts) == [Str(Good(m.name))] + ([Colon] + Spell(m.value, more))
    ensures ParseMembers(fl, h, ts, es, count) == MembersAfterValue(fl, h, rest, es', Inc(count))
    ensures (rest != [] ==> rest[0] != Space) && Strip(rest) == more
    ensures es' == Accept(es + [Key(m.name)], Meaning(m.value))
    decreases m, 2
  {
    FindHead(ts, Str(Good(m.name)), [Colon] + Spell(m.value, more));
    StripSkip(ts[1..]);
    var colon := Skip(ts[1..]);
    FindHead(colon, Colon, Spell(m.value, more));
    StripSkip(colon[1..]);
    DocIsValue(fl, h, Skip(colon[1..]), es + [Key(m.name)], m.value, more);
    var v := ParseValue(fl, h, Skip(colon[1..]), es + [Key(m.name)]);
    StripSkip(v.rest);
    rest, es' := Skip(v.rest), v.events;
  }

  lemma {:induction false} DocsFollowMember(fl: Flags, h: Handler, ts: seq<Token>, es: seq<Event>, count: nat,
                                            ms: seq<MemberDoc>, trailing: bool, more: seq<Token>)
    requires NeverStops(h) && ms != [] && MembersAllowed(fl, ms) && (trailing ==> fl.trailingCommas)
    requires ts != [] ==> ts[0] != Space
    requires count < SIZE_TYPE
    requires Strip(ts) == AfterMember(ms, trailing, more)
    ensures var o := MembersAfterValue(fl, h, ts, es, count);
            && o.Done? && Strip(o.rest) == more
            && o.events == AcceptMembers(es, MemberMeanings(ms[1..])) + [EndObject((count + |ms[1..]|) % SIZE_TYPE)]
    decreases ms[1..], 4
  {
    if |ms| == 1 && !trailing {
      FindHead(ts, RightBrace, more);
    } else {
      FindHead(ts, Comma, AfterMember(ms, trailing, more)[1..]);
      StripSkip(ts[1..]);
      var rest := Skip(ts[1..]);
      if |ms| == 1 {
        FindHead(rest, RightBrace, more);
      } else {
        FindHead(rest, Str(Good(ms[1].name)), Strip(rest)[1..]);
        DocsAreMembers(fl, h, rest, es, count, ms[1..], trailing, more);
      }
    }
  }

  // ----- A text denotes one tree -----

  lemma {:induction false} ScalarOfToken(s1: Scalar, s2: Scalar)
    requires SpellScalar(s1) == SpellScalar(s2)
    ensures s1 == s2
  {}

  /** Text that starts with a document starts with no other, trailing commas apart. */
  lemma {:induction false} OneDocument(d1: Doc, more1: seq<Token>, d2: Doc, more2: seq<Token>)
    requires Spell(d1, more1) == Spell(d2, more2)
    ensures Meaning(d1) == Meaning(d2) && more1 == more2
    decreases d1, 1
  {
    var ts := Spell(d1, more1);
    assert ts[0] == FirstToken(d1) == FirstToken(d2);
    match d1 {
      case AtomDoc(s) =>
        ScalarOfToken(s, d2.s);
        assert ts[1..] == more1 == more2;
      case TextDoc(_) =>
        assert ts[1..] == more1 == more2;
      case ArrayDoc(ds, trailing) =>
        AfterFirst(ts, LeftBracket, ArrayRest(d1, more1), ArrayRest(d2, more2));
        if ds != [] && d2.elements != [] {
          OneElementList(ds, trailing, more1, d2.elements, d2.trailing, more2);
        } else {
          AfterFirst(ArrayRest(d1, more1), RightBracket, more1, more2);
        }
      case ObjectDoc(ms, trailing) =>
        AfterFirst(ts, LeftBrace, ObjectRest(d1, more1), ObjectRest(d2, more2));
        if ms != [] && d2.members != [] {
          OneMemberList(ms, trailing, more1, d2.members, d2.trailing, more2);
        } else {
          AfterFirst(ObjectRest(d1, more1), RightBrace, more1, more2);
        }
    }
  }

  lemma {:induction false} AfterFirst(ts: seq<Token>, t: Token, rest1: seq<Token>, rest2: seq<Token>)
    requires ts == [t] + rest1 && ts == [t] + rest2
    ensures rest1 == rest2
  {
    assert ts[1..] == rest1;
  }

  /** An array and what follows it, from after its bracket on. */
  function ArrayRest(d: Doc, more: seq<Token>): seq<Token>
    requires d.ArrayDoc?
  {
    if d.elements == [] then [RightBracket] + more else SpellElements(d.elements, d.trailing, more)
  }

  function ObjectRest(d: Doc, more: seq<Token>): seq<Token>
    requires d.ObjectDoc?
  {
    if d.members == [] then [RightBrace] + more else SpellMembers(d.members, d.trailing, more)
  }

  lemma {:induction false} OneElementList(ds1: seq<Doc>, trailing1: bool, more1: seq<Token>,
                                          ds2: seq<Doc>, trailing2: bool, more2: seq<Token>)
    requires ds1 != [] && ds2 != []
    requires SpellElements(ds1, trailing1, more1) == SpellElements(ds2, trailing2, more2)
    ensures ElementMeanings(ds1) == ElementMeanings(ds2) && more1 == more2
    decreases ds1, 0
  {
    var after1, after2 := AfterElement(ds1, trailing1, more1), AfterElement(ds2, trailing2, more2);
    OneDocument(ds1[0], after1, ds2[0], after2);
    if |ds1| > 1 && |ds2| > 1 {
      AfterFirst(after1, Comma, SpellElements(ds1[1..], trailing1, more1), SpellElements(ds2[1..], trailing2, more2));
      OneElementList(ds1[1..], trailing1, more1, ds2[1..], trailing2, more2);
    } else {
      OneClose(ds1, trailing1, more1, ds2, trailing2, more2);
    }
  }

  /** A list's last element is not followed by what follows another. */
  lemma {:induction false} OneClose(ds1: seq<Doc>, trailing1: bool, more1: seq<Token>,
                                    ds2: seq<Doc>, trailing2: bool, more2: seq<Token>)
    requires ds1 != [] && ds2 != [] && (|ds1| == 1 || |ds2| == 1)
    requires AfterElement(ds1, trailing1, more1) == AfterElement(ds2, trailing2, more2)
    ensures |ds1| == |ds2| && more1 == more2
  {
    var after := AfterElement(ds1, trailing1, more1);
    assert after[1..] == AfterElement(ds2, trailing2, more2)[1..];
    assert |ds1| == 1 ==> after[if trailing1 then 2 else 1..] == more1;
    assert |ds2| == 1 ==> after[if trailing2 then 2 else 1..] == more2;
  }

  lemma {:induction false} OneMemberList(ms1: seq<MemberDoc>, trailing1: bool, more1: seq<Token>,
                                         ms2: seq<MemberDoc>, trailing2: bool, more2: seq<Token>)
    requires ms1 != [] && ms2 != []
    requires SpellMembers(ms1, trailing1, more1) == SpellMembers(ms2, trailing2, more2)
    ensures MemberMeanings(ms1) == MemberMeanings(ms2) && more1 == more2
    decreases ms1, 0
  {
    var ts := SpellMembers(ms1, trailing1, more1);
    var after1, after2 := AfterMember(ms1, trailing1, more1), AfterMember(ms2, trailing2, more2);
    assert ts[0] == Str(Good(ms1[0].name)) == Str(Good(ms2[0].name));
    assert ts[2..] == Spell(ms1[0].value, after1) == Spell(ms2[0].value, after2);
    OneDocument(ms1[0].value, after1, ms2[0].value, after2);
    if |ms1| > 1 && |ms2| > 1 {
      AfterFirst(after1, Comma, SpellMembers(ms1[1..], trailing1, more1), SpellMembers(ms2[1..], trailing2, more2));
      OneMemberList(ms1[1..], trailing1, more1, ms2[1..], trailing2, more2);
    } else {
      OneMemberClose(ms1, trailing1, more1, ms2, trailing2, more2);
    }
  }

  lemma {:induction false} OneMemberClose(ms1: seq<MemberDoc>, trailing1: bool, more1: seq<Token>,
                                          ms2: seq<MemberDoc>, trailing2: bool, more2: seq<Token>)
    requires ms1 != [] && ms2 != [] && (|ms1| == 1 || |ms2| == 1)
    requires AfterMember(ms1, trailing1, more1) == AfterMember(ms2, trailing2, more2)
    ensures |ms1| == |ms2| && more1 == more2
  {
    var after := AfterMember(ms1, trailing1, more1);
    assert after[1..] == AfterMember(ms2, trailing2, more2)[1..];
    assert |ms1| == 1 ==> after[if trailing1 then 2 else 1..] == more1;
    assert |ms2| == 1 ==> after[if trailing2 then 2 else 1..] == more2;
  }

  // ----- The language -----

  /** The text spells the document d, followed by text that is left unread. */
  predicate Spells(fl: Flags, ts: seq<Token>, d: Doc, unread: seq<Token>) {
    && Allowed(fl, d)
    && Strip(ts) == Spell(d, unread)
    && (fl.stopWhenDone || unread == [])
  }

  /** For every text and flags, with a handler that never stops the parse: the text is accepted
      exactly when it spells an allowed document, in full or, when parsing stops at the end of
      the root, as a prefix. */
  lemma {:induction false} AcceptsExactlyDocuments(fl: Flags, h: Handler, ts: seq<Token>)
    requires NeverStops(h)
    ensures Parse(fl, h, ts).Done? <==> exists d, unread :: Spells(fl, ts, d, unread)
  {
    if Parse(fl, h, ts).Done? {
      var d := AcceptedDocument(fl, h, ts);
    }
    forall d, unread | Spells(fl, ts, d, unread)
      ensures Parse(fl, h, ts).Done?
    {
      DocumentEvents(fl, h, ts, d, unread);
    }
  }

  /** Whatever document an accepted text spells, the events are those of its tree. */
  lemma {:induction false} DocumentEvents(fl: Flags, h: Handler, ts: seq<Token>, d: Doc, unread: seq<Token>)
    requires NeverStops(h)
    requires Spells(fl, ts, d, unread)
    ensures Parse(fl, h, ts).Done?
    ensures Parse(fl, h, ts).events == Events(Meaning(d))
    ensures Strip(Parse(fl, h, ts).rest) == unread
  {
    StripSkip(ts);
    DocIsValue(fl, h, Skip(ts), [], d, unread);
    StripSkip(ParseValue(fl, h, Skip(ts), []).rest);
  }

  lemma {:induction false} AcceptedDocument(fl: Flags, h: Handler, ts: seq<Token>) returns (d: Doc)
    requires Parse(fl, h, ts).Done?
    ensures Spells(fl, ts, d, Strip(Parse(fl, h, ts).rest))
    ensures Parse(fl, h, ts).events == Events(Meaning(d))
  {
    StripSkip(ts);
    d := ValueIsDoc(fl, h, Skip(ts), []);
    StripSkip(ParseValue(fl, h, Skip(ts), []).rest);
  }

  /** A text has one meaning: whatever two documents it spells, they denote the same tree and leave
      the same text unread. */
  lemma {:induction false} SpellingIsUnambiguous(fl: Flags, ts: seq<Token>, d1: Doc, unread1: seq<Token>, d2: Doc,
        unread2: seq<Token>)
    requires Spells(fl, ts, d1, unread1) && Spells(fl, ts, d2, unread2)
    ensures Meaning(d1) == Meaning(d2) && unread1 == unread2
  {
    OneDocument(d1, unread1, d2, unread2);
  }
}
