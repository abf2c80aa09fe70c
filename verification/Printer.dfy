/** The printer: PrettyWriter as a handler that writes text from a stack of levels. */
module Printer {
  import opened Basics
  import opened JsonSyntax
  import opened JsonTree
  import opened Pushdown
  import opened Grammar
  import opened ParserEquivalence
  import Descent
  import D = Document

  // The indentation character must be whitespace; only how many of it make one level matters.
  datatype Format = Format(singleLineArray: bool, indentCharCount: nat)

  // Open containers, innermost first. In an object names and values are counted alike.
  datatype Levels = Root | Level(inArray: bool, valueCount: nat, outer: Levels)

  datatype Writer = Writer(levels: Levels, os: seq<Token>, hasRoot: bool)

  function Depth(levels: Levels): nat {
    if levels.Root? then 0 else 1 + Depth(levels.outer)
  }

  function Spaces(n: nat): seq<Token> {
    if n == 0 then [] else Spaces(n - 1) + [Space]
  }

  function Indent(f: Format, levels: Levels): seq<Token> {
    Spaces(Depth(levels) * f.indentCharCount)
  }

  /** The comma or colon that is due before the next value or name. */
  function Due(levels: Levels): seq<Token> {
    if levels.Root? || levels.valueCount == 0 then []
    else if levels.inArray || levels.valueCount % 2 == 0 then [Comma]
    else [Colon]
  }

  /** The whitespace that follows it. */
  function Padding(f: Format, levels: Levels): seq<Token> {
    match levels
    case Root => []
    case Level(inArray, n, _) =>
      if inArray && f.singleLineArray then (if n > 0 then [Space] else [])
      else if !inArray && n % 2 == 1 then [Space]
      else [Space] + Indent(f, levels)
  }

  function Counted(levels: Levels): Levels {
    if levels.Root? then levels else levels.(valueCount := levels.valueCount + 1)
  }

  /** PrettyPrefix: what goes before a value or a name. None is a failed assertion: a second
      root, or a name that is not a string. */
  function Prefix(f: Format, w: Writer, isString: bool): Option<Writer> {
    if w.levels.Root? && w.hasRoot then None
    else if w.levels.Level? && !w.levels.inArray && w.levels.valueCount % 2 == 0 && !isString then None
    else Some(Writer(Counted(w.levels), w.os + Due(w.levels) + Padding(f, w.levels), w.hasRoot || w.levels.Root?))
  }

  function Leaf(f: Format, w: Writer, t: Token): Option<Writer> {
    match Prefix(f, w, t.Str?)
    case None => None
    case Some(w) => Some(w.(os := w.os + [t]))
  }

  function Open(f: Format, w: Writer, bracket: Token, inArray: bool): Option<Writer> {
    match Prefix(f, w, false)
    case None => None
    case Some(w) => Some(w.(levels := Level(inArray, 0, w.levels), os := w.os + [bracket]))
  }

  /** What goes before a closing bracket. */
  function EndPadding(f: Format, levels: Levels): seq<Token>
    requires levels.Level?
  {
    if levels.valueCount == 0 || (levels.inArray && f.singleLineArray) then [] else [Space] + Indent(f, levels.outer)
  }

  /** EndObject and EndArray. None is a failed assertion: not inside such a container, or a
      name without its value. */
  function Close(f: Format, w: Writer, bracket: Token, inArray: bool): Option<Writer> {
    if w.levels.Root? || w.levels.inArray != inArray || (!inArray && w.levels.valueCount % 2 == 1) then None
    else Some(w.(levels := w.levels.outer, os := w.os + EndPadding(f, w.levels) + [bracket]))
  }

  /** The handler methods. The counts of the closing events are not used. */
  function OnEvent(f: Format, w: Writer, e: Event): Option<Writer> {
    match e
    case Value(s) => Leaf(f, w, SpellScalar(s))
    case String(text) => Leaf(f, w, Str(Good(text)))
    case Key(name) => Leaf(f, w, Str(Good(name)))
    case StartObject => Open(f, w, LeftBrace, false)
    case EndObject(_) => Close(f, w, RightBrace, false)
    case StartArray => Open(f, w, LeftBracket, true)
    case EndArray(_) => Close(f, w, RightBracket, true)
  }

  const BLANK := Writer(Root, [], false)

  /** The writer after every event of a log. */
  function Written(f: Format, es: seq<Event>): Option<Writer> {
    if es == [] then Some(BLANK)
    else match Written(f, es[..|es| - 1])
         case None => None
         case Some(w) => OnEvent(f, w, es[|es| - 1])
  }

  lemma {:induction false} Extend(f: Format, es: seq<Event>, w: Writer, e: Event)
    requires Written(f, es) == Some(w)
    ensures Written(f, es + [e]) == OnEvent(f, w, e)
  {
    assert (es + [e])[..|es|] == es;
  }

  // ----- What is written, whitespace apart -----

  predicate Blank(ts: seq<Token>) {
    forall t | t in ts :: t == Space
  }

  lemma {:induction false} SpacesAreBlank(n: nat)
    ensures Blank(Spaces(n))
  {
    if n > 0 {
      SpacesAreBlank(n - 1);
    }
  }

  lemma {:induction false} StripBlank(text: seq<Token>, blank: seq<Token>)
    requires Blank(blank)
    ensures Strip(text + blank) == Strip(text)
  {
    StripAppend(text, blank);
    BlankIsNothing(blank);
  }

  lemma {:induction false} BlankIsNothing(blank: seq<Token>)
    requires Blank(blank)
    ensures Strip(blank) == []
  {
    if blank != [] {
      assert forall t | t in blank[1..] :: t in blank;
      assert blank[0] in blank;
      BlankIsNothing(blank[1..]);
    }
  }

  lemma {:induction false} StripToken(ts: seq<Token>, t: Token)
    requires t != Space
    ensures Strip(ts + [t]) == Strip(ts) + [t]
  {
    StripAppend(ts, [t]);
    assert Strip([t]) == [t];
  }

  /** A value may be written next, string or not. */
  predicate Ready(w: Writer) {
    if w.levels.Root? then !w.hasRoot else w.hasRoot && (w.levels.inArray || w.levels.valueCount % 2 == 1)
  }

  lemma {:induction false} PrefixSeparates(f: Format, w: Writer, isString: bool)
    requires Prefix(f, w, isString).Some?
    ensures Strip(Prefix(f, w, isString).value.os) == Strip(w.os) + Due(w.levels)
  {
    var due := Due(w.levels);
    SpacesAreBlank(Depth(w.levels) * f.indentCharCount);
    StripBlank(w.os + due, Padding(f, w.levels));
    if due != [] {
      StripToken(w.os, due[0]);
    } else {
      assert w.os + due == w.os;
    }
  }

  lemma {:induction false} CloseStrips(f: Format, w: Writer, bracket: Token, inArray: bool)
    requires Close(f, w, bracket, inArray).Some? && bracket != Space
    ensures Strip(Close(f, w, bracket, inArray).value.os) == Strip(w.os) + [bracket]
  {
    var newline := EndPadding(f, w.levels);
    SpacesAreBlank(Depth(w.levels.outer) * f.indentCharCount);
    StripBlank(w.os, newline);
    StripToken(w.os + newline, bracket);
  }

  // ----- The text of a tree, onto what is already written -----

  function SpellOn(text: seq<Token>, t: Tree): seq<Token>
    decreases t, 1
  {
    match t
    case Atom(s) => text + [SpellScalar(s)]
    case Text(s) => text + [Str(Good(s))]
    case Array(elements) => SpellElementsOn(text + [LeftBracket], elements, 0) + [RightBracket]
    case Object(members) => SpellMembersOn(text + [LeftBrace], members, 0) + [RightBrace]
  }

  function CommaIf(b: bool): seq<Token> {
    if b then [Comma] else []
  }

  function SpellElementsOn(text: seq<Token>, ts: seq<Tree>, n: nat): seq<Token>
    decreases ts, 0
  {
    if ts == [] then text
    else SpellElementsOn(SpellOn(text + CommaIf(n > 0), ts[0]), ts[1..], n + 1)
  }

  function SpellMembersOn(text: seq<Token>, ms: seq<Member>, n: nat): seq<Token>
    decreases ms, 0
  {
    if ms == [] then text
    else
      var name := text + CommaIf(n > 0) + [Str(Good(ms[0].name))];
      SpellMembersOn(SpellOn(name + [Colon], ms[0].value), ms[1..], n + 1)
  }

  // ----- Printing a tree -----

  /** Announcing a tree to a writer that is ready for a value fails no assertion and writes,
      whitespace apart, the tree's text after the separator that was due. */
  lemma {:induction false} PrintTree(f: Format, es: seq<Event>, w: Writer, t: Tree) returns (w': Writer)
    requires Written(f, es) == Some(w) && Ready(w)
    ensures Written(f, Accept(es, t)) == Some(w')
    ensures w'.levels == Counted(w.levels) && w'.hasRoot
    ensures Strip(w'.os) == SpellOn(Strip(w.os) + Due(w.levels), t)
    decreases t, 1
  {
    match t {
      case Atom(s) => w' := PrintLeaf(f, es, w, Value(s), SpellScalar(s));
      case Text(text) => w' := PrintLeaf(f, es, w, String(text), Str(Good(text)));
      case Array(elements) => w' := PrintArray(f, es, w, elements);
      case Object(members) => w' := PrintObject(f, es, w, members);
    }
  }

  lemma {:induction false} PrintLeaf(f: Format, es: seq<Event>, w: Writer, e: Event, t: Token) returns (w': Writer)
    requires Written(f, es) == Some(w) && t != Space
    requires OnEvent(f, w, e) == Leaf(f, w, t) && Prefix(f, w, t.Str?).Some?
    ensures Written(f, es + [e]) == Some(w')
    ensures w'.levels == Counted(w.levels) && w'.hasRoot == (w.hasRoot || w.levels.Root?)
    ensures Strip(w'.os) == Strip(w.os) + Due(w.levels) + [t]
  {
    Extend(f, es, w, e);
    PrefixSeparates(f, w, t.Str?);
    var w1 := Prefix(f, w, t.Str?).value;
    StripToken(w1.os, t);
    w' := w1.(os := w1.os + [t]);
  }

  lemma {:induction false} PrintOpen(f: Format, es: seq<Event>, w: Writer, e: Event, bracket: Token, inArray: bool)
    returns (w': Writer)
    requires Written(f, es) == Some(w) && Ready(w) && bracket != Space
    requires OnEvent(f, w, e) == Open(f, w, bracket, inArray)
    ensures Written(f, es + [e]) == Some(w')
    ensures w'.levels == Level(inArray, 0, Counted(w.levels)) && w'.hasRoot
    ensures Strip(w'.os) == Strip(w.os) + Due(w.levels) + [bracket]
  {
    Extend(f, es, w, e);
    PrefixSeparates(f, w, false);
    var w1 := Prefix(f, w, false).value;
    StripToken(w1.os, bracket);
    w' := w1.(levels := Level(inArray, 0, w1.levels), os := w1.os + [bracket]);
  }

  lemma {:induction false} PrintClose(f: Format, es: seq<Event>, w: Writer, e: Event, bracket: Token, inArray: bool)
    returns (w': Writer)
    requires Written(f, es) == Some(w) && w.hasRoot && bracket != Space
    requires OnEvent(f, w, e) == Close(f, w, bracket, inArray) && Close(f, w, bracket, inArray).Some?
    ensures Written(f, es + [e]) == Some(w')
    ensures w'.levels == w.levels.outer && w'.hasRoot
    ensures Strip(w'.os) == Strip(w.os) + [bracket]
  {
    Extend(f, es, w, e);
    CloseStrips(f, w, bracket, inArray);
    w' := Close(f, w, bracket, inArray).value;
  }

  lemma {:induction false} PrintArray(f: Format, es: seq<Event>, w: Writer, elements: seq<Tree>) returns (w': Writer)
    requires Written(f, es) == Some(w) && Ready(w)
    ensures Written(f, Accept(es, Array(elements))) == Some(w')
    ensures w'.levels == Counted(w.levels) && w'.hasRoot
    ensures Strip(w'.os) == SpellOn(Strip(w.os) + Due(w.levels), Array(elements))
    decreases elements, 2
  {
    var w1 := PrintOpen(f, es, w, StartArray, LeftBracket, true);
    var w2 := PrintElements(f, es + [StartArray], w1, elements);
    w' := PrintClose(f, AcceptElements(es + [StartArray], elements), w2, EndArray(|elements| % SIZE_TYPE),
        RightBracket, true);
  }

  lemma {:induction false} PrintElements(f: Format, es: seq<Event>, w: Writer, ts: seq<Tree>) returns (w': Writer)
    requires Written(f, es) == Some(w) && w.levels.Level? && w.levels.inArray && w.hasRoot
    ensures Written(f, AcceptElements(es, ts)) == Some(w')
    ensures w'.levels == w.levels.(valueCount := w.levels.valueCount + |ts|) && w'.hasRoot
    ensures Strip(w'.os) == SpellElementsOn(Strip(w.os), ts, w.levels.valueCount)
    decreases ts, 0
  {
    if ts == [] {
      w' := w;
    } else {
      ElementDue(w);
      var w1 := PrintTree(f, es, w, ts[0]);
      w' := PrintElements(f, Accept(es, ts[0]), w1, ts[1..]);
      assert AcceptElements(es, ts) == AcceptElements(Accept(es, ts[0]), ts[1..]);
    }
  }

  /** Before an element a comma is due, but for the first. */
  lemma {:induction false} ElementDue(w: Writer)
    requires w.levels.Level? && w.levels.inArray && w.hasRoot
    ensures Ready(w) && Due(w.levels) == CommaIf(w.levels.valueCount > 0)
  {}

  lemma {:induction false} PrintObject(f: Format, es: seq<Event>, w: Writer, members: seq<Member>) returns (w': Writer)
    requires Written(f, es) == Some(w) && Ready(w)
    ensures Written(f, Accept(es, Object(members))) == Some(w')
    ensures w'.levels == Counted(w.levels) && w'.hasRoot
    ensures Strip(w'.os) == SpellOn(Strip(w.os) + Due(w.levels), Object(members))
    decreases members, 2
  {
    var w1 := PrintOpen(f, es, w, StartObject, LeftBrace, false);
    var w2 := PrintMembers(f, es + [StartObject], w1, members, 0);
    var log, end := AcceptMembers(es + [StartObject], members), EndObject(|members| % SIZE_TYPE);
    FullPairsClose(f, w2, |members|);
    w' := PrintClose(f, log, w2, end, RightBrace, false);
    assert Accept(es, Object(members)) == log + [end];
  }

  lemma {:induction false} FullPairsClose(f: Format, w: Writer, n: nat)
    requires w.levels.Level? && !w.levels.inArray && w.levels.valueCount == 2 * n
    ensures Close(f, w, RightBrace, false).Some?
  {}

  lemma {:induction false} PrintMembers(f: Format, es: seq<Event>, w: Writer, ms: seq<Member>, n: nat) returns (w': Writer)
    requires Written(f, es) == Some(w) && w.hasRoot
    requires w.levels.Level? && !w.levels.inArray && w.levels.valueCount == 2 * n
    ensures Written(f, AcceptMembers(es, ms)) == Some(w')
    ensures w'.levels == w.levels.(valueCount := 2 * (n + |ms|)) && w'.hasRoot
    ensures Strip(w'.os) == SpellMembersOn(Strip(w.os), ms, n)
    decreases ms, 0
  {
    if ms == [] {
      w' := w;
    } else {
      var w1 := PrintMember(f, es, w, ms[0], n);
      w' := PrintMembers(f, Accept(es + [Key(ms[0].name)], ms[0].value), w1, ms[1..], n + 1);
    }
  }

  lemma {:induction false} PrintMember(f: Format, es: seq<Event>, w: Writer, m: Member, n: nat) returns (w': Writer)
    requires Written(f, es) == Some(w) && w.hasRoot
    requires w.levels.Level? && !w.levels.inArray && w.levels.valueCount == 2 * n
    ensures Written(f, Accept(es + [Key(m.name)], m.value)) == Some(w')
    ensures w'.levels == w.levels.(valueCount := 2 * (n + 1)) && w'.hasRoot
    ensures Strip(w'.os) == SpellOn(Strip(w.os) + CommaIf(n > 0) + [Str(Good(m.name))] + [Colon], m.value)
    decreases m, 2
  {
    var key := Key(m.name);
    MemberDue(f, w, n);
    var w1 := PrintLeaf(f, es, w, key, Str(Good(m.name)));
    w' := PrintTree(f, es + [key], w1, m.value);
  }

  /** Before a name a comma is due, but for the first; behind it, a colon. */
  lemma {:induction false} MemberDue(f: Format, w: Writer, n: nat)
    requires w.levels.Level? && !w.levels.inArray && w.levels.valueCount == 2 * n
    ensures Due(w.levels) == CommaIf(n > 0) && Prefix(f, w, true).Some?
    ensures Due(Counted(w.levels)) == [Colon] && Counted(w.levels).valueCount % 2 == 1
  {}

  // ----- The text of a tree spells a document without trailing commas -----

  function Plain(t: Tree): (d: Doc)
    ensures Meaning(d) == t
    ensures forall fl :: Allowed(fl, d)
    decreases t, 1
  {
    match t
    case Atom(s) => AtomDoc(s)
    case Text(text) => TextDoc(text)
    case Array(elements) => ArrayDoc(PlainElements(elements), false)
    case Object(members) => ObjectDoc(PlainMembers(members), false)
  }

  function PlainElements(ts: seq<Tree>): (ds: seq<Doc>)
    ensures |ds| == |ts| && ElementMeanings(ds) == ts
    ensures forall fl :: ElementsAllowed(fl, ds)
    decreases ts, 0
  {
    if ts == [] then [] else [Plain(ts[0])] + PlainElements(ts[1..])
  }

  function PlainMembers(ms: seq<Member>): (ds: seq<MemberDoc>)
    ensures |ds| == |ms| && MemberMeanings(ds) == ms
    ensures forall fl :: MembersAllowed(fl, ds)
    decreases ms, 0
  {
    if ms == [] then [] else [MemberDoc(ms[0].name, Plain(ms[0].value))] + PlainMembers(ms[1..])
  }

  lemma {:induction false} SpellOnIsSpell(text: seq<Token>, t: Tree, more: seq<Token>)
    ensures SpellOn(text, t) + more == text + Spell(Plain(t), more)
    decreases t, 1
  {
    match t {
      case Atom(s) =>
      case Text(_) =>
      case Array(elements) =>
        var inner := SpellElementsOn(text + [LeftBracket], elements, 0);
        assert inner + [RightBracket] + more == inner + ([RightBracket] + more);
        if elements == [] {
        } else {
          ElementsOnIsSpell(text + [LeftBracket], elements, 0, more);
        }
      case Object(members) =>
        var inner := SpellMembersOn(text + [LeftBrace], members, 0);
        assert inner + [RightBrace] + more == inner + ([RightBrace] + more);
        if members == [] {
        } else {
          MembersOnIsSpell(text + [LeftBrace], members, 0, more);
        }
    }
  }

  lemma {:induction false} ElementsOnIsSpell(text: seq<Token>, ts: seq<Tree>, n: nat, more: seq<Token>)
    requires ts != []
    ensures SpellElementsOn(text, ts, n) + ([RightBracket] + more)
         == text + CommaIf(n > 0) + SpellElements(PlainElements(ts), false, more)
    decreases ts, 0
  {
    var text1 := text + CommaIf(n > 0);
    var text2 := SpellOn(text1, ts[0]);
    var ds := PlainElements(ts);
    assert ds[1..] == PlainElements(ts[1..]);
    SpellOnIsSpell(text1, ts[0], AfterElement(ds, false, more));
    if |ts| > 1 {
      ElementsOnIsSpell(text2, ts[1..], n + 1, more);
      Regroup(text2, [Comma], SpellElements(ds[1..], false, more));
    }
  }

  lemma {:induction false} Regroup(a: seq<Token>, b: seq<Token>, c: seq<Token>)
    ensures a + b + c == a + (b + c)
  {}

  lemma {:induction false} MembersOnIsSpell(text: seq<Token>, ms: seq<Member>, n: nat, more: seq<Token>)
    requires ms != []
    ensures SpellMembersOn(text, ms, n) + ([RightBrace] + more)
         == text + CommaIf(n > 0) + SpellMembers(PlainMembers(ms), false, more)
    decreases ms, 0
  {
    var text1 := text + CommaIf(n > 0);
    var name := Str(Good(ms[0].name));
    var text2 := SpellOn(text1 + [name] + [Colon], ms[0].value);
    var ds := PlainMembers(ms);
    assert ds[1..] == PlainMembers(ms[1..]);
    var after := AfterMember(ds, false, more);
    SpellOnIsSpell(text1 + [name] + [Colon], ms[0].value, after);
    Regroup(text1 + [name], [Colon], Spell(ds[0].value, after));
    Regroup(text1, [name], [Colon] + Spell(ds[0].value, after));
    if |ms| > 1 {
      MembersOnIsSpell(text2, ms[1..], n + 1, more);
      Regroup(text2, [Comma], SpellMembers(ds[1..], false, more));
    }
  }

  // ----- Printing and parsing -----

  /** For every tree and every format: the printer fails no assertion on the tree's events, ends
      outside all containers, and what it wrote is accepted by both parsers, under any flags,
      with exactly the tree's events; a document built from them is the tree again, if and only if
      no count wraps. */
  lemma {:induction false} PrintThenParse(f: Format, fl: Flags, h: Handler, t: Tree)
    requires NeverStops(h)
    ensures Written(f, Events(t)).Some?
    ensures var w := Written(f, Events(t)).value;
            && w.levels == Root
            && Descent.Parse(fl, h, w.os).Done? && Descent.Parse(fl, h, w.os).events == Events(t)
            && IterativeParse(fl, h, w.os) == Descent.Parse(fl, h, w.os)
            && (D.Build(Descent.Parse(fl, h, w.os).events) == Some([t]) <==> D.Countable(t))
  {
    var w := PrintTree(f, [], BLANK, t);
    SpellOnIsSpell([], t, []);
    assert [] + Due(Root) == [];
    assert SpellOn([], t) + [] == SpellOn([], t);
    assert [] + Spell(Plain(t), []) == Spell(Plain(t), []);
    DocumentEvents(fl, h, w.os, Plain(t), []);
    ParsersAgree(fl, h, w.os);
    D.AnnouncedFromScratch(t);
  }

  // ----- The class -----

  class PrettyWriter {
    var format: Format
    var levels: Levels
    var os: seq<Token>
    var hasRoot: bool

    function State(): Writer
      reads this
    {
      Writer(levels, os, hasRoot)
    }

    constructor (f: Format)
      ensures State() == BLANK && format == f
    {
      format, levels, os, hasRoot := f, Root, [], false;
    }

    method PutN(t: Token, n: nat)
      modifies this`os
      ensures t == Space ==> os == old(os) + Spaces(n)
    {
      var count := 0;
      assert os == old(os) + Spaces(0);
      while count < n
        invariant count <= n
        invariant t == Space ==> os == old(os) + Spaces(count)
      {
        os := os + [t];
        count := count + 1;
      }
    }

    method WriteIndent()
      modifies this`os
      ensures os == old(os) + Indent(format, levels)
    {
      var depth, l := 0, levels;
      while l.Level?
        invariant depth + Depth(l) == Depth(levels) && os == old(os)
        decreases l
      {
        depth, l := depth + 1, l.outer;
      }
      PutN(Space, depth * format.indentCharCount);
    }

    method PrettyPrefix(isString: bool)
      requires Prefix(format, State(), isString).Some?
      modifies this
      ensures Some(State()) == Prefix(format, old(State()), isString) && format == old(format)
    {
      if levels.Level? {
        if levels.inArray {
          if levels.valueCount > 0 {
            os := os + [Comma];
            if format.singleLineArray {
              os := os + [Space];
            }
          }
          if !format.singleLineArray {
            os := os + [Space];
            WriteIndent();
          }
        } else {
          if levels.valueCount > 0 {
            if levels.valueCount % 2 == 0 {
              os := os + [Comma];
              os := os + [Space];
            } else {
              os := os + [Colon];
              os := os + [Space];
            }
          } else {
            os := os + [Space];
          }
          if levels.valueCount % 2 == 0 {
            WriteIndent();
          }
        }
        levels := levels.(valueCount := levels.valueCount + 1);
      } else {
        hasRoot := true;
      }
      assert os == old(os) + Due(old(levels)) + Padding(format, old(levels));
    }

    /** Null, Bool and the number methods. */
    method Scalar(s: Scalar)
      requires OnEvent(format, State(), Value(s)).Some?
      modifies this
      ensures Some(State()) == OnEvent(format, old(State()), Value(s)) && format == old(format)
    {
      PrettyPrefix(false);
      os := os + [SpellScalar(s)];
    }

    method String(text: Bytes)
      requires OnEvent(format, State(), Event.String(text)).Some?
      modifies this
      ensures Some(State()) == OnEvent(format, old(State()), Event.String(text)) && format == old(format)
    {
      PrettyPrefix(true);
      os := os + [Str(Good(text))];
    }

    method Key(name: Bytes)
      requires OnEvent(format, State(), Event.Key(name)).Some?
      modifies this
      ensures Some(State()) == OnEvent(format, old(State()), Event.Key(name)) && format == old(format)
    {
      String(name);
    }

    method StartObject()
      requires OnEvent(format, State(), Event.StartObject).Some?
      modifies this
      ensures Some(State()) == OnEvent(format, old(State()), Event.StartObject) && format == old(format)
    {
      PrettyPrefix(false);
      levels := Level(false, 0, levels);
      os := os + [LeftBrace];
    }

    method EndObject(memberCount: nat)
      requires OnEvent(format, State(), Event.EndObject(memberCount)).Some?
      modifies this
      ensures Some(State()) == OnEvent(format, old(State()), Event.EndObject(memberCount)) && format == old(format)
    {
      var empty := levels.valueCount == 0;
      levels := levels.outer;
      if !empty {
        os := os + [Space];
        WriteIndent();
      }
      assert os == old(os) + EndPadding(format, old(levels));
      os := os + [RightBrace];
    }

    method StartArray()
      requires OnEvent(format, State(), Event.StartArray).Some?
      modifies this
      ensures Some(State()) == OnEvent(format, old(State()), Event.StartArray) && format == old(format)
    {
      PrettyPrefix(false);
      levels := Level(true, 0, levels);
      os := os + [LeftBracket];
    }

    method EndArray(elementCount: nat)
      requires OnEvent(format, State(), Event.EndArray(elementCount)).Some?
      modifies this
      ensures Some(State()) == OnEvent(format, old(State()), Event.EndArray(elementCount)) && format == old(format)
    {
      var empty := levels.valueCount == 0;
      levels := levels.outer;
      if !empty && !format.singleLineArray {
        os := os + [Space];
        WriteIndent();
      }
      assert os == old(os) + EndPadding(format, old(levels));
      os := os + [RightBracket];
    }
  }
}
