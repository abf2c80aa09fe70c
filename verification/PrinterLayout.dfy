/** How the printer lays a tree out: every line is as deep as the containers that are open on it. */
module PrinterLayout {
  import opened Basics
  import opened JsonSyntax
  import opened JsonTree
  import opened Printer
  import W = Printer

  // ----- The layout of a tree -----

  /** A new line, indented for the containers that are open. */
  function Line(f: Format, open: nat): seq<Token> {
    [Space] + seq(open * f.indentCharCount, _ => Space)
  }

  /** What stands before the next of an array's elements. */
  function BeforeElement(f: Format, n: nat, open: nat): seq<Token> {
    if f.singleLineArray then (if n > 0 then [Comma, Space] else [])
    else (if n > 0 then [Comma] else []) + Line(f, open)
  }

  /** A tree laid out behind a text, inside as many containers as are open. */
  function LayOut(f: Format, text: seq<Token>, t: Tree, open: nat): seq<Token>
    decreases t, 1
  {
    match t
    case Atom(s) => text + [SpellScalar(s)]
    case Text(s) => text + [Str(Good(s))]
    case Array(elements) =>
      LayOutElements(f, text + [LeftBracket], elements, 0, open + 1) +
      (if elements == [] || f.singleLineArray then [] else Line(f, open)) + [RightBracket]
    case Object(members) =>
      LayOutMembers(f, text + [LeftBrace], members, 0, open + 1) +
      (if members == [] then [] else Line(f, open)) + [RightBrace]
  }

  function LayOutElements(f: Format, text: seq<Token>, ts: seq<Tree>, n: nat, open: nat): seq<Token>
    decreases ts, 0
  {
    if ts == [] then text
    else LayOutElements(f, LayOut(f, text + BeforeElement(f, n, open), ts[0], open), ts[1..], n + 1, open)
  }

  function LayOutMembers(f: Format, text: seq<Token>, ms: seq<Member>, n: nat, open: nat): seq<Token>
    decreases ms, 0
  {
    if ms == [] then text
    else
      var name := text + (if n > 0 then [Comma] else []) + Line(f, open) + [Str(Good(ms[0].name))];
      LayOutMembers(f, LayOut(f, name + [Colon, Space], ms[0].value, open), ms[1..], n + 1, open)
  }

  // ----- What the printer puts between the tokens -----

  function Gap(f: Format, levels: Levels): seq<Token> {
    Due(levels) + Padding(f, levels)
  }

  lemma {:induction false} SpacesAreSpaces(n: nat)
    ensures Spaces(n) == seq(n, _ => Space)
  {
    if n > 0 {
      SpacesAreSpaces(n - 1);
      assert Spaces(n) == seq(n, _ => Space);
    }
  }

  lemma {:induction false} IndentIsLine(f: Format, levels: Levels)
    ensures [Space] + Indent(f, levels) == Line(f, Depth(levels))
  {
    SpacesAreSpaces(Depth(levels) * f.indentCharCount);
  }

  lemma {:induction false} GapInArray(f: Format, levels: Levels)
    requires levels.Level? && levels.inArray
    ensures Gap(f, levels) == BeforeElement(f, levels.valueCount, Depth(levels))
  {
    IndentIsLine(f, levels);
  }

  lemma {:induction false} GapBeforeName(f: Format, levels: Levels, n: nat)
    requires levels.Level? && !levels.inArray && levels.valueCount == 2 * n
    ensures Gap(f, levels) == (if n > 0 then [Comma] else []) + Line(f, Depth(levels))
  {
    IndentIsLine(f, levels);
  }

  lemma {:induction false} GapBeforeValue(f: Format, levels: Levels, n: nat)
    requires levels.Level? && !levels.inArray && levels.valueCount == 2 * n + 1
    ensures Gap(f, levels) == [Colon, Space]
  {}

  lemma {:induction false} GapAtEnd(f: Format, levels: Levels)
    requires levels.Level?
    ensures EndPadding(f, levels)
         == if levels.valueCount == 0 || (levels.inArray && f.singleLineArray) then [] else Line(f, Depth(levels.outer))
  {
    IndentIsLine(f, levels.outer);
  }

  // ----- The printer lays trees out so -----

  lemma {:induction false} LeafLaidOut(f: Format, es: seq<Event>, w: Writer, e: Event, t: Token) returns (w': Writer)
    requires Written(f, es) == Some(w)
    requires OnEvent(f, w, e) == W.Leaf(f, w, t) && Prefix(f, w, t.Str?).Some?
    ensures Written(f, es + [e]) == Some(w')
    ensures w'.levels == Counted(w.levels) && w'.hasRoot == (w.hasRoot || w.levels.Root?)
    ensures w'.os == w.os + Gap(f, w.levels) + [t]
  {
    Extend(f, es, w, e);
    w' := W.Leaf(f, w, t).value;
    Regroup(w.os, Due(w.levels), Padding(f, w.levels));
  }

  lemma {:induction false} OpenLaidOut(f: Format, es: seq<Event>, w: Writer, e: Event, bracket: Token, inArray: bool)
    returns (w': Writer)
    requires Written(f, es) == Some(w) && Ready(w)
    requires OnEvent(f, w, e) == Open(f, w, bracket, inArray)
    ensures Written(f, es + [e]) == Some(w')
    ensures w'.levels == Level(inArray, 0, Counted(w.levels)) && w'.hasRoot && Depth(w'.levels) == Depth(w.levels) + 1
    ensures w'.os == w.os + Gap(f, w.levels) + [bracket]
  {
    Extend(f, es, w, e);
    CountedDepth(w.levels);
    w' := Open(f, w, bracket, inArray).value;
    Regroup(w.os, Due(w.levels), Padding(f, w.levels));
  }

  lemma {:induction false} CloseLaidOut(f: Format, es: seq<Event>, w: Writer, e: Event, bracket: Token, inArray: bool)
    returns (w': Writer)
    requires Written(f, es) == Some(w) && w.hasRoot
    requires OnEvent(f, w, e) == W.Close(f, w, bracket, inArray) && W.Close(f, w, bracket, inArray).Some?
    ensures Written(f, es + [e]) == Some(w')
    ensures w'.levels == w.levels.outer && w'.hasRoot
    ensures w'.os == w.os + EndPadding(f, w.levels) + [bracket]
  {
    Extend(f, es, w, e);
    w' := W.Close(f, w, bracket, inArray).value;
  }

  lemma {:induction false} TreeLaidOut(f: Format, es: seq<Event>, w: Writer, t: Tree) returns (w': Writer)
    requires Written(f, es) == Some(w) && Ready(w)
    ensures Written(f, Accept(es, t)) == Some(w')
    ensures w'.levels == Counted(w.levels) && w'.hasRoot
    ensures w'.os == LayOut(f, w.os + Gap(f, w.levels), t, Depth(w.levels))
    decreases t, 1
  {
    match t {
      case Atom(s) => w' := LeafLaidOut(f, es, w, Value(s), SpellScalar(s));
      case Text(text) => w' := LeafLaidOut(f, es, w, String(text), Str(Good(text)));
      case Array(elements) => w' := ArrayLaidOut(f, es, w, elements);
      case Object(members) => w' := ObjectLaidOut(f, es, w, members);
    }
  }

  lemma {:induction false} ArrayLaidOut(f: Format, es: seq<Event>, w: Writer, elements: seq<Tree>) returns (w': Writer)
    requires Written(f, es) == Some(w) && Ready(w)
    ensures Written(f, Accept(es, Array(elements))) == Some(w')
    ensures w'.levels == Counted(w.levels) && w'.hasRoot
    ensures w'.os == LayOut(f, w.os + Gap(f, w.levels), Array(elements), Depth(w.levels))
    decreases elements, 2
  {
    var w1 := OpenLaidOut(f, es, w, StartArray, LeftBracket, true);
    var open := Depth(w.levels);
    var w2 := ElementsLaidOut(f, es + [StartArray], w1, elements, 0, open + 1);
    var log, end := AcceptElements(es + [StartArray], elements), EndArray(|elements| % SIZE_TYPE);
    w' := CloseArray(f, log, w2, elements, end, w.os + Gap(f, w.levels), open);
    assert Accept(es, Array(elements)) == log + [end];
  }

  lemma {:induction false} CloseArray(f: Format, log: seq<Event>, w: Writer, elements: seq<Tree>, end: Event,
                                      text: seq<Token>, open: nat)
    returns (w': Writer)
    requires Written(f, log) == Some(w) && w.hasRoot && end.EndArray?
    requires w.levels.Level? && w.levels.inArray && w.levels.valueCount == |elements| && Depth(w.levels.outer) == open
    requires w.os == LayOutElements(f, text + [LeftBracket], elements, 0, open + 1)
    ensures Written(f, log + [end]) == Some(w')
    ensures w'.levels == w.levels.outer && w'.hasRoot
    ensures w'.os == LayOut(f, text, Array(elements), open)
  {
    w' := CloseLaidOut(f, log, w, end, RightBracket, true);
    ArrayEnds(f, w.levels, elements, open);
    ArrayIs(f, text, elements, open, w.os, EndPadding(f, w.levels));
  }

  lemma {:induction false} ArrayEnds(f: Format, levels: Levels, elements: seq<Tree>, open: nat)
    requires levels.Level? && levels.inArray && levels.valueCount == |elements| && Depth(levels.outer) == open
    ensures EndPadding(f, levels) == if elements == [] || f.singleLineArray then [] else Line(f, open)
  {
    GapAtEnd(f, levels);
  }

  lemma {:induction false} ArrayIs(f: Format, text: seq<Token>, elements: seq<Tree>, open: nat, inner: seq<Token>, end: seq<Token>)
    requires inner == LayOutElements(f, text + [LeftBracket], elements, 0, open + 1)
    requires end == if elements == [] || f.singleLineArray then [] else Line(f, open)
    ensures LayOut(f, text, Array(elements), open) == inner + end + [RightBracket]
  {}

  lemma {:induction false} ObjectEnds(f: Format, levels: Levels, members: seq<Member>, open: nat)
    requires levels.Level? && !levels.inArray && levels.valueCount == 2 * |members| && Depth(levels.outer) == open
    ensures EndPadding(f, levels) == if members == [] then [] else Line(f, open)
  {
    GapAtEnd(f, levels);
  }

  lemma {:induction false} ObjectIs(f: Format, text: seq<Token>, members: seq<Member>, open: nat, inner: seq<Token>, end: seq<Token>)
    requires inner == LayOutMembers(f, text + [LeftBrace], members, 0, open + 1)
    requires end == if members == [] then [] else Line(f, open)
    ensures LayOut(f, text, Object(members), open) == inner + end + [RightBrace]
  {}

  lemma {:induction false} CountedDepth(levels: Levels)
    ensures Depth(Counted(levels)) == Depth(levels)
  {}

  lemma {:induction false} ElementsLaidOut(f: Format, es: seq<Event>, w: Writer, ts: seq<Tree>, n: nat, open: nat)
    returns (w': Writer)
    requires Written(f, es) == Some(w) && w.levels.Level? && w.levels.inArray && w.hasRoot
    requires n == w.levels.valueCount && open == Depth(w.levels)
    ensures Written(f, AcceptElements(es, ts)) == Some(w')
    ensures w'.levels == w.levels.(valueCount := n + |ts|) && w'.hasRoot
    ensures w'.os == LayOutElements(f, w.os, ts, n, open)
    decreases ts, 0
  {
    if ts == [] {
      w' := w;
    } else {
      GapInArray(f, w.levels);
      CountedDepth(w.levels);
      var w1 := TreeLaidOut(f, es, w, ts[0]);
      w' := ElementsLaidOut(f, Accept(es, ts[0]), w1, ts[1..], n + 1, open);
      assert AcceptElements(es, ts) == AcceptElements(Accept(es, ts[0]), ts[1..]);
    }
  }

  lemma {:induction false} ObjectLaidOut(f: Format, es: seq<Event>, w: Writer, members: seq<Member>) returns (w': Writer)
    requires Written(f, es) == Some(w) && Ready(w)
    ensures Written(f, Accept(es, Object(members))) == Some(w')
    ensures w'.levels == Counted(w.levels) && w'.hasRoot
    ensures w'.os == LayOut(f, w.os + Gap(f, w.levels), Object(members), Depth(w.levels))
    decreases members, 2
  {
    var open, text := Depth(w.levels), w.os + Gap(f, w.levels);
    var w1 := AllMembersLaidOut(f, es, w, members, text, open);
    var log, end := ObjectAccepted(es, members);
    w' := CloseObject(f, log, w1, members, end, text, open);
  }

  lemma {:induction false} AllMembersLaidOut(f: Format, es: seq<Event>, w: Writer, ms: seq<Member>, text: seq<Token>, open: nat)
    returns (w': Writer)
    requires Written(f, es) == Some(w) && Ready(w) && open == Depth(w.levels) && text == w.os + Gap(f, w.levels)
    ensures Written(f, AcceptMembers(es + [StartObject], ms)) == Some(w')
    ensures w'.levels.Level? && !w'.levels.inArray && w'.levels.valueCount == 2 * |ms| && w'.hasRoot
    ensures w'.levels.outer == Counted(w.levels) && Depth(w'.levels.outer) == open
    ensures w'.os == LayOutMembers(f, text + [LeftBrace], ms, 0, open + 1)
    decreases ms, 1
  {
    CountedDepth(w.levels);
    var w1 := OpenLaidOut(f, es, w, StartObject, LeftBrace, false);
    w' := MembersLaidOut(f, es + [StartObject], w1, ms, 0, open + 1);
  }

  lemma {:induction false} ObjectAccepted(es: seq<Event>, members: seq<Member>) returns (log: seq<Event>, end: Event)
    ensures Accept(es, Object(members)) == log + [end] && end.EndObject?
    ensures log == AcceptMembers(es + [StartObject], members)
  {
    log, end := AcceptMembers(es + [StartObject], members), EndObject(|members| % SIZE_TYPE);
  }

  lemma {:induction false} CloseObject(f: Format, log: seq<Event>, w: Writer, members: seq<Member>, end: Event,
                                       text: seq<Token>, open: nat)
    returns (w': Writer)
    requires Written(f, log) == Some(w) && w.hasRoot && end.EndObject?
    requires w.levels.Level? && !w.levels.inArray && w.levels.valueCount == 2 * |members| && Depth(w.levels.outer) == open
    requires w.os == LayOutMembers(f, text + [LeftBrace], members, 0, open + 1)
    ensures Written(f, log + [end]) == Some(w')
    ensures w'.levels == w.levels.outer && w'.hasRoot
    ensures w'.os == LayOut(f, text, Object(members), open)
  {
    FullPairsClose(f, w, |members|);
    w' := CloseLaidOut(f, log, w, end, RightBrace, false);
    ObjectEnds(f, w.levels, members, open);
    ObjectIs(f, text, members, open, w.os, EndPadding(f, w.levels));
  }

  lemma {:induction false} MembersLaidOut(f: Format, es: seq<Event>, w: Writer, ms: seq<Member>, n: nat, open: nat)
    returns (w': Writer)
    requires Written(f, es) == Some(w) && w.hasRoot && open == Depth(w.levels)
    requires w.levels.Level? && !w.levels.inArray && w.levels.valueCount == 2 * n
    ensures Written(f, AcceptMembers(es, ms)) == Some(w')
    ensures w'.levels == w.levels.(valueCount := 2 * (n + |ms|)) && w'.hasRoot
    ensures w'.os == LayOutMembers(f, w.os, ms, n, open)
    decreases ms, 0
  {
    if ms == [] {
      w' := w;
    } else {
      var w1 := MemberLaidOut(f, es, w, ms[0], n);
      w' := MembersLaidOut(f, Accept(es + [Key(ms[0].name)], ms[0].value), w1, ms[1..], n + 1, open);
    }
  }

  lemma {:induction false} MemberLaidOut(f: Format, es: seq<Event>, w: Writer, m: Member, n: nat) returns (w': Writer)
    requires Written(f, es) == Some(w) && w.hasRoot
    requires w.levels.Level? && !w.levels.inArray && w.levels.valueCount == 2 * n
    ensures Written(f, Accept(es + [Key(m.name)], m.value)) == Some(w')
    ensures w'.levels == w.levels.(valueCount := 2 * (n + 1)) && w'.hasRoot
    ensures
      var name := w.os + (if n > 0 then [Comma] else []) + Line(f, Depth(w.levels)) + [Str(Good(m.name))];
      w'.os == LayOut(f, name + [Colon, Space], m.value, Depth(w.levels))
    decreases m, 2
  {
    var key := Key(m.name);
    MemberDue(f, w, n);
    GapBeforeName(f, w.levels, n);
    var w1 := LeafLaidOut(f, es, w, key, Str(Good(m.name)));
    GapBeforeValue(f, w1.levels, n);
    CountedDepth(w.levels);
    w' := TreeLaidOut(f, es + [key], w1, m.value);
    Regroup(w.os, if n > 0 then [Comma] else [], Line(f, Depth(w.levels)));
  }

  /** Announced to a blank printer, a tree is laid out from the left margin. */
  lemma {:induction false} PrintedLayout(f: Format, t: Tree)
    ensures Written(f, Events(t)).Some? && Written(f, Events(t)).value.os == LayOut(f, [], t, 0)
  {
    var w := TreeLaidOut(f, [], BLANK, t);
    assert [] + Gap(f, Root) == [];
  }
}
