/** The schema validator's document path: a stack of code units that spells, as a JSON Pointer,
    the path of the value being judged. The schemas themselves are a judge, who may refuse at any
    question put to it. */
module SchemaPath {
  import opened Basics
  import opened Decimals
  import opened JsonSyntax
  import opened JsonTree
  import P = PointerSyntax
  import R = PointerRoundTrip
  import T = PointerTree

  // ----- Names of a path, and how they are spelled -----

  type Path = seq<Bytes>

  function Tokens(path: Path): (ts: seq<P.Token>)
    ensures |ts| == |path| && forall k | 0 <= k < |path| :: ts[k] == P.TokenOf(path[k])
    decreases path
  {
    if |path| == 0 then [] else [P.TokenOf(path[0])] + Tokens(path[1..])
  }

  /** A name with its tildes and slashes escaped. */
  function Escaped(name: Bytes): Bytes
    decreases name
  {
    if |name| == 0 then [] else EscapedUnit(name[0]) + Escaped(name[1..])
  }

  function EscapedUnit(c: bv8): Bytes {
    if c == P.TILDE then [P.TILDE, P.ZERO] else if c == P.SLASH then [P.TILDE, P.ONE] else [c]
  }

  function SpellPath(path: Path): Bytes {
    if |path| == 0 then [] else SpellPath(path[..|path| - 1]) + [P.SLASH] + Escaped(path[|path| - 1])
  }

  // ----- The validator -----

  // Of a schema context, what decides the path: whether its value is an array, and the index of
  // the next element.
  datatype Context = Context(inArray: bool, elementIndex: nat)

  datatype State = State(contexts: seq<Context>, documentStack: Bytes, valid: bool, asked: seq<Bytes>)

  // Answers to the questions put so far, by what the path was at each.
  type Judge = seq<Bytes> -> bool

  /** A schema is asked about the value on the path; a refusal ends the validation. */
  function Ask(judge: Judge, s: State): State {
    if !s.valid then s
    else
      var asked := s.asked + [s.documentStack];
      s.(asked := asked, valid := judge(asked))
  }

  function AppendToken(stack: Bytes, name: Bytes): Bytes {
    stack + [P.SLASH] + Escaped(name)
  }

  /** Pops up to and including the last slash. */
  function RemoveToken(stack: Bytes): Bytes {
    if |stack| == 0 then []
    else if stack[|stack| - 1] == P.SLASH then stack[..|stack| - 1]
    else RemoveToken(stack[..|stack| - 1])
  }

  function BeginValue(judge: Judge, s: State): State {
    if !s.valid then s
    else if |s.contexts| == 0 then s.(contexts := [Context(false, 0)])
    else
      var top := s.contexts[|s.contexts| - 1];
      if !top.inArray then s.(contexts := s.contexts + [Context(false, 0)])
      else
        var t := Ask(judge, s.(documentStack := AppendToken(s.documentStack, Numeral(top.elementIndex))));
        if !t.valid then t
        else
          var next := top.(elementIndex := Inc(top.elementIndex));
          t.(contexts := s.contexts[..|s.contexts| - 1] + [next, Context(false, 0)])
  }

  /** The value's schema is asked once more; then its context goes, the elements of an array are
      compared, and the last token is removed. */
  function EndValue(judge: Judge, s: State): State {
    var t := Ask(judge, s);
    if !t.valid || |t.contexts| == 0 then t
    else
      var outer := t.contexts[..|t.contexts| - 1];
      var u := t.(contexts := outer);
      var compared := if |outer| > 0 && outer[|outer| - 1].inArray then Ask(judge, u) else u;
      if !compared.valid then compared else compared.(documentStack := RemoveToken(compared.documentStack))
  }

  /** The value on top has turned out to be an array, or has ended as one. */
  function EnterArray(s: State): State {
    if !s.valid || |s.contexts| == 0 then s
    else s.(contexts := s.contexts[..|s.contexts| - 1] + [Context(true, 0)])
  }

  function LeaveArray(s: State): State {
    if !s.valid || |s.contexts| == 0 then s
    else s.(contexts := s.contexts[..|s.contexts| - 1] + [s.contexts[|s.contexts| - 1].(inArray := false)])
  }

  function Step(judge: Judge, s: State, e: Event): State {
    if !s.valid then s
    else
      match e
      case Value(_) => EndValue(judge, Ask(judge, BeginValue(judge, s)))
      case String(_) => EndValue(judge, Ask(judge, BeginValue(judge, s)))
      case StartObject => Ask(judge, BeginValue(judge, s))
      case Key(name) => Ask(judge, s.(documentStack := AppendToken(s.documentStack, name)))
      case EndObject(_) => EndValue(judge, Ask(judge, s))
      case StartArray => EnterArray(Ask(judge, BeginValue(judge, s)))
      case EndArray(_) => EndValue(judge, Ask(judge, LeaveArray(s)))
  }

  function Run(judge: Judge, s: State, es: seq<Event>): State {
    if |es| == 0 then s else Step(judge, Run(judge, s, es[..|es| - 1]), es[|es| - 1])
  }

  // ----- What is asked, from the tree alone -----

  function If<A>(b: bool, p: A): seq<A> {
    if b then [p] else []
  }

  /** The paths that are put for a value: as an element before it begins, when it begins, when it ends,
      and as an element among the others. Elements are counted as the validator counts them. */
  function Visit(asked: seq<Bytes>, t: Tree, path: Path, inArray: bool): seq<Bytes>
    decreases t, 1
  {
    var p := SpellPath(path);
    var begun := asked + If(inArray, p) + [p];
    var inside :=
      match t
      case Array(elements) => VisitElements(begun, elements, 0, path) + [p]
      case Object(members) => VisitMembers(begun, members, path) + [p]
      case _ => begun;
    inside + [p] + If(inArray, p)
  }

  function VisitElements(asked: seq<Bytes>, ts: seq<Tree>, i: nat, path: Path): seq<Bytes>
    decreases ts, 0
  {
    if ts == [] then asked
    else VisitElements(Visit(asked, ts[0], path + [Numeral(i)], true), ts[1..], Inc(i), path)
  }

  function VisitMembers(asked: seq<Bytes>, ms: seq<Member>, path: Path): seq<Bytes>
    decreases ms, 0
  {
    if ms == [] then asked
    else
      var there := path + [ms[0].name];
      VisitMembers(Visit(asked + [SpellPath(there)], ms[0].value, there, false), ms[1..], path)
  }

  // ----- Escaping never leaves a slash, so a token is removed whole -----

  lemma {:induction false} EscapedHasNoSlash(name: Bytes)
    ensures forall k | 0 <= k < |Escaped(name)| :: Escaped(name)[k] != P.SLASH
    decreases name
  {
    if |name| > 0 {
      EscapedHasNoSlash(name[1..]);
      UnitHasNoSlash(name[0]);
    }
  }

  lemma {:induction false} UnitHasNoSlash(c: bv8)
    ensures forall k | 0 <= k < |EscapedUnit(c)| :: EscapedUnit(c)[k] != P.SLASH
  {}

  lemma {:induction false} RemoveTail(stack: Bytes, tail: Bytes)
    requires forall k | 0 <= k < |tail| :: tail[k] != P.SLASH
    ensures RemoveToken(stack + [P.SLASH] + tail) == stack
    decreases tail
  {
    var all := stack + [P.SLASH] + tail;
    if |tail| == 0 {
      assert all[..|all| - 1] == stack;
    } else {
      assert all[|all| - 1] == tail[|tail| - 1];
      assert all[..|all| - 1] == stack + [P.SLASH] + tail[..|tail| - 1];
      RemoveTail(stack, tail[..|tail| - 1]);
    }
  }

  lemma {:induction false} RemoveAppended(stack: Bytes, name: Bytes)
    ensures RemoveToken(AppendToken(stack, name)) == stack
  {
    EscapedHasNoSlash(name);
    RemoveTail(stack, Escaped(name));
  }

  lemma {:induction false} SpellPathMore(path: Path, name: Bytes)
    ensures SpellPath(path + [name]) == AppendToken(SpellPath(path), name)
    ensures RemoveToken(SpellPath(path + [name])) == SpellPath(path)
  {
    assert (path + [name])[..|path|] == path;
    RemoveAppended(SpellPath(path), name);
  }

  // ----- The validator puts what a visit puts -----

  /** A valid state with given contexts and path; or one where a question on record was refused,
      with the path still standing where it was put. */
  predicate Stands(s: State, contexts: seq<Context>, stack: Bytes, asked: seq<Bytes>) {
    && (s.valid ==> s.contexts == contexts && s.documentStack == stack && s.asked == asked)
    && (!s.valid ==> |s.asked| > 0 && s.asked <= asked && s.documentStack == s.asked[|s.asked| - 1])
  }

  lemma {:induction false} RefusedBefore(s: State, contexts: seq<Context>, stack: Bytes, asked: seq<Bytes>,
                                         contexts': seq<Context>, stack': Bytes, asked': seq<Bytes>)
    requires Stands(s, contexts, stack, asked) && !s.valid && asked <= asked'
    ensures Stands(s, contexts', stack', asked')
  {}

  lemma {:induction false} AskStands(judge: Judge, s: State, contexts: seq<Context>, stack: Bytes, asked: seq<Bytes>)
    requires Stands(s, contexts, stack, asked)
    ensures Stands(Ask(judge, s), contexts, stack, asked + [stack])
  {}

  /** How a value comes onto the path: an element behind its array's path, any other value where the
      path already leads. */
  predicate Opens(outer: seq<Context>, before: Bytes, outer': seq<Context>, there: Path, inArray: bool) {
    if inArray then
      && |outer| > 0 && outer[|outer| - 1].inArray && |there| > 0
      && there[|there| - 1] == Numeral(outer[|outer| - 1].elementIndex)
      && before == SpellPath(there[..|there| - 1])
      && outer' == outer[..|outer| - 1] + [Context(true, Inc(outer[|outer| - 1].elementIndex))]
    else
      outer' == outer && before == SpellPath(there) && (|outer| == 0 || !outer[|outer| - 1].inArray)
  }

  lemma {:induction false} BeginStands(judge: Judge, s: State, outer: seq<Context>, before: Bytes, asked: seq<Bytes>,
                                       outer': seq<Context>, there: Path, inArray: bool)
    requires Stands(s, outer, before, asked) && Opens(outer, before, outer', there, inArray)
    ensures Stands(BeginValue(judge, s), outer' + [Context(false, 0)], SpellPath(there), asked + If(inArray, SpellPath(there)))
  {
    if inArray {
      assert there == there[..|there| - 1] + [there[|there| - 1]];
      SpellPathMore(there[..|there| - 1], there[|there| - 1]);
      var moved := s.(documentStack := AppendToken(s.documentStack, Numeral(outer[|outer| - 1].elementIndex)));
      if s.valid {
        AskStands(judge, moved, outer, SpellPath(there), asked);
      }
    } else {
      assert asked + If(inArray, SpellPath(there)) == asked;
    }
  }

  lemma {:induction false} EndStands(judge: Judge, s: State, outer: seq<Context>, c: Context, there: Path,
        asked: seq<Bytes>, inArray: bool)
    requires Stands(s, outer + [c], SpellPath(there), asked)
    requires inArray == (|outer| > 0 && outer[|outer| - 1].inArray)
    ensures Stands(EndValue(judge, s), outer, RemoveToken(SpellPath(there)), asked + [SpellPath(there)] + If(inArray, SpellPath(there)))
  {
    var t := Ask(judge, s);
    AskStands(judge, s, outer + [c], SpellPath(there), asked);
    if t.valid {
      assert (outer + [c])[..|outer|] == outer;
      var u := t.(contexts := outer);
      if inArray {
        AskStands(judge, u, outer, SpellPath(there), asked + [SpellPath(there)]);
      }
    }
  }

  lemma {:induction false} RunOneMore(judge: Judge, s: State, es: seq<Event>, e: Event)
    ensures Run(judge, s, es + [e]) == Step(judge, Run(judge, s, es), e)
  {
    assert (es + [e])[..|es|] == es;
  }

  /** A value that is opened and closed by one event. */
  lemma {:induction false} LeafStands(judge: Judge, s: State, e: Event, outer: seq<Context>, before: Bytes,
        asked: seq<Bytes>,
                                      outer': seq<Context>, there: Path, inArray: bool)
    requires e.Value? || e.String?
    requires Stands(s, outer, before, asked) && Opens(outer, before, outer', there, inArray)
    ensures Stands(Step(judge, s, e), outer', RemoveToken(SpellPath(there)),
                   asked + If(inArray, SpellPath(there)) + [SpellPath(there)] + [SpellPath(there)] + If(inArray, SpellPath(there)))
  {
    var p := SpellPath(there);
    BeginStands(judge, s, outer, before, asked, outer', there, inArray);
    var t := BeginValue(judge, s);
    AskStands(judge, t, outer' + [Context(false, 0)], p, asked + If(inArray, p));
    EndStands(judge, Ask(judge, t), outer', Context(false, 0), there, asked + If(inArray, p) + [p], inArray);
    if !s.valid {
      RefusedBefore(s, outer, before, asked, outer', RemoveToken(p), asked + If(inArray, p) + [p] + [p] + If(inArray, p));
    }
  }

  /** The start of a container. */
  lemma {:induction false} StartStands(judge: Judge, s: State, e: Event, outer: seq<Context>, before: Bytes,
        asked: seq<Bytes>,
                                       outer': seq<Context>, there: Path, inArray: bool)
    requires e.StartArray? || e.StartObject?
    requires Stands(s, outer, before, asked) && Opens(outer, before, outer', there, inArray)
    ensures Stands(Step(judge, s, e), outer' + [Context(e.StartArray?, 0)], SpellPath(there),
                   asked + If(inArray, SpellPath(there)) + [SpellPath(there)])
  {
    var p := SpellPath(there);
    BeginStands(judge, s, outer, before, asked, outer', there, inArray);
    var t := BeginValue(judge, s);
    AskStands(judge, t, outer' + [Context(false, 0)], p, asked + If(inArray, p));
    assert (outer' + [Context(false, 0)])[..|outer'|] == outer';
    if !s.valid {
      RefusedBefore(s, outer, before, asked, outer' + [Context(e.StartArray?, 0)], p, asked + If(inArray, p) + [p]);
    }
  }

  /** The end of a container. */
  lemma {:induction false} FinishStands(judge: Judge, s: State, e: Event, outer: seq<Context>, c: Context, there: Path,
                                        asked: seq<Bytes>, inArray: bool)
    requires e.EndArray? || e.EndObject?
    requires Stands(s, outer + [c], SpellPath(there), asked)
    requires inArray == (|outer| > 0 && outer[|outer| - 1].inArray)
    ensures Stands(Step(judge, s, e), outer, RemoveToken(SpellPath(there)),
                   asked + [SpellPath(there)] + [SpellPath(there)] + If(inArray, SpellPath(there)))
  {
    if e.EndArray? {
      LeaveStands(s, outer, c, SpellPath(there), asked);
      CloseStands(judge, LeaveArray(s), outer, c.(inArray := false), there, asked, inArray);
    } else {
      CloseStands(judge, s, outer, c, there, asked, inArray);
    }
  }

  lemma {:induction false} CloseStands(judge: Judge, s: State, outer: seq<Context>, c: Context, there: Path,
                                       asked: seq<Bytes>, inArray: bool)
    requires Stands(s, outer + [c], SpellPath(there), asked)
    requires inArray == (|outer| > 0 && outer[|outer| - 1].inArray)
    ensures Stands(EndValue(judge, Ask(judge, s)), outer, RemoveToken(SpellPath(there)),
                   asked + [SpellPath(there)] + [SpellPath(there)] + If(inArray, SpellPath(there)))
  {
    AskStands(judge, s, outer + [c], SpellPath(there), asked);
    EndStands(judge, Ask(judge, s), outer, c, there, asked + [SpellPath(there)], inArray);
  }

  lemma {:induction false} LeaveStands(s: State, outer: seq<Context>, c: Context, stack: Bytes, asked: seq<Bytes>)
    requires Stands(s, outer + [c], stack, asked)
    ensures Stands(LeaveArray(s), outer + [c.(inArray := false)], stack, asked)
  {
    assert (outer + [c])[..|outer|] == outer;
  }

  lemma {:induction false} KeyStands(judge: Judge, s: State, name: Bytes, contexts: seq<Context>, path: Path,
        asked: seq<Bytes>)
    requires Stands(s, contexts, SpellPath(path), asked)
    ensures Stands(Step(judge, s, Key(name)), contexts, SpellPath(path + [name]), asked + [SpellPath(path + [name])])
  {
    SpellPathMore(path, name);
    if s.valid {
      AskStands(judge, s.(documentStack := AppendToken(s.documentStack, name)), contexts, SpellPath(path + [name]), asked);
    } else {
      RefusedBefore(s, contexts, SpellPath(path), asked, contexts, SpellPath(path + [name]), asked + [SpellPath(path + [name])]);
    }
  }

  lemma {:induction false} TreeStands(judge: Judge, s: State, es: seq<Event>, t: Tree, outer: seq<Context>, before: Bytes,
                                      asked: seq<Bytes>, outer': seq<Context>, there: Path, inArray: bool)
    requires Stands(Run(judge, s, es), outer, before, asked) && Opens(outer, before, outer', there, inArray)
    ensures Stands(Run(judge, s, Accept(es, t)), outer', RemoveToken(SpellPath(there)), Visit(asked, t, there, inArray))
    decreases t, 2
  {
    match t
    case Atom(a) =>
      RunOneMore(judge, s, es, Value(a));
      LeafStands(judge, Run(judge, s, es), Value(a), outer, before, asked, outer', there, inArray);
    case Text(text) =>
      RunOneMore(judge, s, es, String(text));
      LeafStands(judge, Run(judge, s, es), String(text), outer, before, asked, outer', there, inArray);
    case Array(elements) =>
      RunOneMore(judge, s, es, StartArray);
      StartStands(judge, Run(judge, s, es), StartArray, outer, before, asked, outer', there, inArray);
      ArrayStands(judge, s, es + [StartArray], t, outer', there, asked + If(inArray,
          SpellPath(there)) + [SpellPath(there)], inArray);
    case Object(members) =>
      RunOneMore(judge, s, es, StartObject);
      StartStands(judge, Run(judge, s, es), StartObject, outer, before, asked, outer', there, inArray);
      ObjectStands(judge, s, es + [StartObject], t, outer', there, asked + If(inArray,
          SpellPath(there)) + [SpellPath(there)], inArray);
  }

  lemma {:induction false} ArrayStands(judge: Judge, s: State, es: seq<Event>, t: Tree, outer: seq<Context>, there: Path,
                                       begun: seq<Bytes>, inArray: bool)
    requires t.Array? && Stands(Run(judge, s, es), outer + [Context(true, 0)], SpellPath(there), begun)
    requires inArray == (|outer| > 0 && outer[|outer| - 1].inArray)
    ensures Stands(Run(judge, s, AcceptElements(es, t.elements) + [EndArray(|t.elements| % SIZE_TYPE)]), outer,
               RemoveToken(SpellPath(there)),
                   VisitElements(begun, t.elements, 0, there) + [SpellPath(there)] + [SpellPath(there)] + If(inArray, SpellPath(there)))
    decreases t, 1
  {
    var n := |t.elements|;
    var last := ElementsStand(judge, s, es, t.elements, 0, outer, there, begun);
    var inner := AcceptElements(es, t.elements);
    RunOneMore(judge, s, inner, EndArray(n % SIZE_TYPE));
    FinishStands(judge, Run(judge, s, inner), EndArray(n % SIZE_TYPE), outer, Context(true, last), there,
                 VisitElements(begun, t.elements, 0, there), inArray);
  }

  lemma {:induction false} ObjectStands(judge: Judge, s: State, es: seq<Event>, t: Tree, outer: seq<Context>, there: Path,
                                        begun: seq<Bytes>, inArray: bool)
    requires t.Object? && Stands(Run(judge, s, es), outer + [Context(false, 0)], SpellPath(there), begun)
    requires inArray == (|outer| > 0 && outer[|outer| - 1].inArray)
    ensures Stands(Run(judge, s, AcceptMembers(es, t.members) + [EndObject(|t.members| % SIZE_TYPE)]), outer,
               RemoveToken(SpellPath(there)),
                   VisitMembers(begun, t.members, there) + [SpellPath(there)] + [SpellPath(there)] + If(inArray, SpellPath(there)))
    decreases t, 1
  {
    var end := EndObject(|t.members| % SIZE_TYPE);
    MembersStand(judge, s, es, t.members, outer, there, begun);
    var inner := AcceptMembers(es, t.members);
    RunOneMore(judge, s, inner, end);
    FinishStands(judge, Run(judge, s, inner), end, outer, Context(false, 0), there, VisitMembers(begun, t.members,
        there), inArray);
  }

  lemma {:induction false} ElementsStand(judge: Judge, s: State, es: seq<Event>, ts: seq<Tree>, i: nat, outer: seq<Context>,
                                         path: Path, asked: seq<Bytes>)
    returns (last: nat)
    requires Stands(Run(judge, s, es), outer + [Context(true, i)], SpellPath(path), asked)
    ensures Stands(Run(judge, s, AcceptElements(es, ts)), outer + [Context(true, last)], SpellPath(path),
               VisitElements(asked, ts, i, path))
    decreases ts, 0
  {
    if ts == [] {
      last := i;
    } else {
      var there := path + [Numeral(i)];
      OpensElement(outer, i, path);
      SpellPathMore(path, Numeral(i));
      TreeStands(judge, s, es, ts[0], outer + [Context(true, i)], SpellPath(path), asked, outer + [Context(true,
          Inc(i))], there, true);
      last := ElementsStand(judge, s, Accept(es, ts[0]), ts[1..], Inc(i), outer, path, Visit(asked, ts[0], there, true));
    }
  }

  lemma {:induction false} OpensElement(outer: seq<Context>, i: nat, path: Path)
    ensures Opens(outer + [Context(true, i)], SpellPath(path), outer + [Context(true, Inc(i))], path + [Numeral(i)], true)
  {
    var there := path + [Numeral(i)];
    assert there[..|there| - 1] == path;
    assert (outer + [Context(true, i)])[..|outer|] == outer;
  }

  lemma {:induction false} MembersStand(judge: Judge, s: State, es: seq<Event>, ms: seq<Member>, outer: seq<Context>,
                                        path: Path, asked: seq<Bytes>)
    requires Stands(Run(judge, s, es), outer + [Context(false, 0)], SpellPath(path), asked)
    ensures Stands(Run(judge, s, AcceptMembers(es, ms)), outer + [Context(false, 0)], SpellPath(path),
               VisitMembers(asked, ms, path))
    decreases ms, 0
  {
    if ms != [] {
      var there := path + [ms[0].name];
      RunOneMore(judge, s, es, Key(ms[0].name));
      KeyStands(judge, Run(judge, s, es), ms[0].name, outer + [Context(false, 0)], path, asked);
      SpellPathMore(path, ms[0].name);
      TreeStands(judge, s, es + [Key(ms[0].name)], ms[0].value, outer + [Context(false, 0)], SpellPath(there),
          asked + [SpellPath(there)],
                 outer + [Context(false, 0)], there, false);
      MembersStand(judge, s, Accept(es + [Key(ms[0].name)], ms[0].value), ms[1..], outer, path,
                   Visit(asked + [SpellPath(there)], ms[0].value, there, false));
    }
  }

  /** A validator at the start of a document, with the path of the document in a larger one. */
  function Fresh(base: Path): State {
    State([], SpellPath(base), true, [])
  }

  /** Over the events of any tree, whatever the schemas answer: what is asked is what a visit puts, until
      something is refused, and then the stack stands as it was put. */
  lemma {:induction false} RunVisits(judge: Judge, base: Path, t: Tree)
    ensures
      var s, visit := Run(judge, Fresh(base), Events(t)), Visit([], t, base, false);
      && (s.valid ==> s.asked == visit && s.contexts == [] && s.documentStack == RemoveToken(SpellPath(base)))
      && (!s.valid ==> |s.asked| > 0 && s.asked <= visit && s.documentStack == s.asked[|s.asked| - 1])
  {
    TreeStands(judge, Fresh(base), [], t, [], SpellPath(base), [], [], base, false);
  }

  // ----- The verdict is the judge's -----

  /** The judge has answered for every question on record: he refused the last one, if the validation
      has failed, and none before. */
  ghost predicate Answered(judge: Judge, s: State) {
    && (forall n | 1 <= n < |s.asked| :: judge(s.asked[..n]))
    && (s.valid ==> |s.asked| > 0 ==> judge(s.asked))
    && (!s.valid ==> |s.asked| > 0 && !judge(s.asked))
  }

  lemma {:induction false} AskAnswers(judge: Judge, s: State)
    requires Answered(judge, s)
    ensures Answered(judge, Ask(judge, s))
  {
    var asked := s.asked + [s.documentStack];
    forall n | 1 <= n < |asked| && s.valid ensures judge(asked[..n]) {
      assert asked[..n] == s.asked[..n];
      assert n == |s.asked| ==> asked[..n] == s.asked;
    }
  }

  lemma {:induction false} BeginAnswers(judge: Judge, s: State)
    requires Answered(judge, s)
    ensures Answered(judge, BeginValue(judge, s))
  {
    if s.valid && |s.contexts| > 0 && s.contexts[|s.contexts| - 1].inArray {
      var i := s.contexts[|s.contexts| - 1].elementIndex;
      AskAnswers(judge, s.(documentStack := AppendToken(s.documentStack, Numeral(i))));
    }
  }

  lemma {:induction false} EndAnswers(judge: Judge, s: State)
    requires Answered(judge, s)
    ensures Answered(judge, EndValue(judge, s))
  {
    AskAnswers(judge, s);
    var t := Ask(judge, s);
    if t.valid && |t.contexts| > 0 {
      AskAnswers(judge, t.(contexts := t.contexts[..|t.contexts| - 1]));
    }
  }

  lemma {:induction false} StepAnswers(judge: Judge, s: State, e: Event)
    requires Answered(judge, s)
    ensures Answered(judge, Step(judge, s, e))
  {
    BeginAnswers(judge, s);
    var begun := BeginValue(judge, s);
    AskAnswers(judge, begun);
    EndAnswers(judge, Ask(judge, begun));
    AskAnswers(judge, s);
    EndAnswers(judge, Ask(judge, s));
    AskAnswers(judge, LeaveArray(s));
    EndAnswers(judge, Ask(judge, LeaveArray(s)));
    if e.Key? {
      AskAnswers(judge, s.(documentStack := AppendToken(s.documentStack, e.name)));
    }
  }

  lemma {:induction false} RunAnswers(judge: Judge, s: State, es: seq<Event>)
    requires Answered(judge, s)
    ensures Answered(judge, Run(judge, s, es))
    decreases es
  {
    if |es| > 0 {
      RunAnswers(judge, s, es[..|es| - 1]);
      StepAnswers(judge, Run(judge, s, es[..|es| - 1]), es[|es| - 1]);
    }
  }

  // ----- A spelled path is a JSON Pointer of its names -----

  lemma {:induction false} WrittenIsEscaped(name: Bytes, j: nat)
    requires j <= |name|
    ensures P.WriteName(name, false, j) == Some(Escaped(name[j..]))
    decreases |name| - j
  {
    if j < |name| {
      WrittenIsEscaped(name, j + 1);
      UnitIsWritten(name, j);
      assert name[j..][1..] == name[j + 1..];
    }
  }

  lemma {:induction false} UnitIsWritten(name: Bytes, j: nat)
    requires j < |name|
    ensures P.WriteUnit(name, false, j) == Some((1, EscapedUnit(name[j])))
  {}

  lemma {:induction false} SpellPathFirst(path: Path)
    requires |path| > 0
    ensures SpellPath(path) == [P.SLASH] + Escaped(path[0]) + SpellPath(path[1..])
    decreases path
  {
    var last := path[|path| - 1];
    if |path| == 1 {
      assert path[..0] == [] && path[1..] == [];
    } else {
      SpellPathFirst(path[..|path| - 1]);
      assert path[..|path| - 1][1..] == path[1..][..|path| - 2];
      assert path[1..][|path| - 2] == last;
      Regroup([P.SLASH] + Escaped(path[0]), SpellPath(path[1..][..|path| - 2]), [P.SLASH], Escaped(last));
    }
  }

  lemma {:induction false} Regroup(a: Bytes, b: Bytes, c: Bytes, d: Bytes)
    ensures a + b + c + d == a + (b + c + d)
  {}

  lemma {:induction false} SpelledIsWritten(path: Path)
    ensures P.WriteTokens(Tokens(path), false) == Some(SpellPath(path))
    decreases path
  {
    if |path| > 0 {
      SpellPathFirst(path);
      SpelledIsWritten(path[1..]);
      assert Tokens(path)[1..] == Tokens(path[1..]);
      WrittenIsEscaped(path[0], 0);
      assert path[0][0..] == path[0];
    }
  }

  /** What the stack spells is parsed as a JSON Pointer whose tokens are the original names. */
  lemma {:induction false} SpelledPathParses(path: Path)
    ensures P.Parse(SpellPath(path)) == P.Valid(Tokens(path))
  {
    SpelledIsWritten(path);
    assert [] + SpellPath(path) == SpellPath(path);
    R.ParseOfStringify(Tokens(path), false);
  }

  lemma {:induction false} SpelledApart(p: Path, q: Path)
    requires SpellPath(p) == SpellPath(q)
    ensures p == q
  {
    SpelledPathParses(p);
    SpelledPathParses(q);
    TokensApart(p, q);
  }

  lemma {:induction false} ParsesAs(p: Path, q: Path)
    ensures P.Parse(SpellPath(p)) == P.Valid(Tokens(q)) <==> SpellPath(p) == SpellPath(q)
  {
    SpelledPathParses(p);
    SpelledPathParses(q);
    if Tokens(p) == Tokens(q) {
      TokensApart(p, q);
    }
  }

  lemma {:induction false} TokensApart(p: Path, q: Path)
    requires Tokens(p) == Tokens(q)
    ensures p == q
  {
    forall k | 0 <= k < |p| ensures p[k] == q[k] {
      assert P.TokenOf(p[k]) == Tokens(p)[k] == Tokens(q)[k] == P.TokenOf(q[k]);
    }
  }

  // ----- Names of the way to a value -----

  /** The name of a child: a member's name, or the numeral of an element's position. */
  function ChildName(v: Tree, k: nat): Bytes
    requires k < T.Arity(v)
  {
    match v
    case Array(_) => Numeral(k)
    case Object(members) => members[k].name
  }

  /** The validator's count of elements after k of them. */
  function ElementCount(k: nat): (i: nat)
    ensures i < SIZE_TYPE
  {
    if k == 0 then 0 else Inc(ElementCount(k - 1))
  }

  /** The name that the validator puts. */
  function PutName(v: Tree, k: nat): Bytes
    requires k < T.Arity(v)
  {
    match v
    case Array(_) => Numeral(ElementCount(k))
    case Object(members) => members[k].name
  }

  /** The names on the way to a place in a tree. */
  function Names(root: Tree, at: T.Location): Path
    decreases at
  {
    if |at| == 0 || at[0] >= T.Arity(root) then [] else [ChildName(root, at[0])] + Names(T.Child(root, at[0]), at[1..])
  }

  function PutNames(root: Tree, at: T.Location): Path
    decreases at
  {
    if |at| == 0 || at[0] >= T.Arity(root) then [] else [PutName(root, at[0])] + PutNames(T.Child(root, at[0]), at[1..])
  }

  /** On the way to a place, no array element has 2^32 or more before it. */
  predicate Counted(root: Tree, at: T.Location)
    requires T.Inside(root, at)
    decreases at
  {
    |at| == 0 || ((root.Array? ==> at[0] < SIZE_TYPE) && Counted(T.Child(root, at[0]), at[1..]))
  }

  lemma {:induction false} CountWraps(k: nat)
    ensures ElementCount(k) == k % SIZE_TYPE
  {
    if k > 0 {
      CountWraps(k - 1);
    }
  }

  lemma {:induction false} CountIsExact(k: nat)
    ensures ElementCount(k) == k <==> k < SIZE_TYPE
  {
    CountWraps(k);
  }

  lemma {:induction false} PutNameIsName(v: Tree, k: nat)
    requires k < T.Arity(v)
    ensures PutName(v, k) == ChildName(v, k) <==> (v.Array? ==> k < SIZE_TYPE)
  {
    CountIsExact(k);
    if v.Array? && Numeral(ElementCount(k)) == Numeral(k) {
      NumeralIsInjective(ElementCount(k), k);
    }
  }

  /** The names put are the names on the way if and only if no count of elements has wrapped there. */
  lemma {:induction false} PutNamesAreNames(root: Tree, at: T.Location)
    requires T.Inside(root, at)
    ensures PutNames(root, at) == Names(root, at) <==> Counted(root, at)
    decreases at
  {
    if |at| > 0 {
      var child := T.Child(root, at[0]);
      PutNameIsName(root, at[0]);
      PutNamesAreNames(child, at[1..]);
      SameNames(PutName(root, at[0]), PutNames(child, at[1..]), ChildName(root, at[0]), Names(child, at[1..]));
    }
  }

  lemma {:induction false} SameNames(a: Bytes, p: Path, b: Bytes, q: Path)
    ensures [a] + p == [b] + q <==> a == b && p == q
  {
    if [a] + p == [b] + q {
      assert ([a] + p)[0] == ([b] + q)[0];
      assert p == ([a] + p)[1..] == ([b] + q)[1..] == q;
    }
  }

  lemma {:induction false} PutNamesBelow(root: Tree, at: T.Location, k: nat)
    requires T.Inside(root, at) && k < T.Arity(T.ValueAt(root, at))
    ensures PutNames(root, at + [k]) == PutNames(root, at) + [PutName(T.ValueAt(root, at), k)]
    decreases at
  {
    if |at| == 0 {
      assert at + [k] == [k] && [k][1..] == [];
    } else {
      assert (at + [k])[1..] == at[1..] + [k];
      PutNamesBelow(T.Child(root, at[0]), at[1..], k);
    }
  }

  // ----- Where each question is put -----

  /** The places of a tree in the order in which the validator puts its questions about them. */
  function Places(seen: seq<T.Location>, t: Tree, at: T.Location, inArray: bool): seq<T.Location>
    decreases t, 1
  {
    var begun := seen + If(inArray, at) + [at];
    var inside :=
      match t
      case Array(elements) => ElementPlaces(begun, elements, 0, at) + [at]
      case Object(members) => MemberPlaces(begun, members, 0, at) + [at]
      case _ => begun;
    inside + [at] + If(inArray, at)
  }

  function ElementPlaces(seen: seq<T.Location>, ts: seq<Tree>, k: nat, at: T.Location): seq<T.Location>
    decreases ts, 0
  {
    if ts == [] then seen else ElementPlaces(Places(seen, ts[0], at + [k], true), ts[1..], k + 1, at)
  }

  function MemberPlaces(seen: seq<T.Location>, ms: seq<Member>, k: nat, at: T.Location): seq<T.Location>
    decreases ms, 0
  {
    if ms == [] then seen
    else MemberPlaces(Places(seen + [at + [k]], ms[0].value, at + [k], false), ms[1..], k + 1, at)
  }

  /** The places of a tree, in the order of the questions about them. */
  function Order(t: Tree): seq<T.Location> {
    Places([], t, [], false)
  }

  lemma {:induction false} PlacesOfElement(seen: seq<T.Location>, at: T.Location)
    ensures Places(seen, Atom(Null), at, true) == seen + [at, at, at, at]
  {}

  lemma {:induction false} PlacesOfArray(seen: seq<T.Location>, t: Tree, at: T.Location)
    ensures Places(seen, Array([t]), at, false) == Places(seen + [at], t, at + [0], true) + [at, at]
  {
    assert [t][1..] == [];
    var inner := Places(seen + [at], t, at + [0], true);
    assert ElementPlaces(seen + [at], [t], 0, at) == inner;
    assert inner + [at] + [at] == inner + [at, at];
    assert seen + If(false, at) + [at] == seen + [at];
    assert inner + [at] + [at] + If(false, at) == inner + [at] + [at];
  }

  lemma {:induction false} PlacesOfObject(seen: seq<T.Location>, m: Member, at: T.Location)
    ensures Places(seen, Object([m]), at, false) == Places(seen + [at, at + [0]], m.value, at + [0], false) + [at, at]
  {
    assert [m][1..] == [];
    assert seen + [at] + [at + [0]] == seen + [at, at + [0]];
    var inner := Places(seen + [at, at + [0]], m.value, at + [0], false);
    assert MemberPlaces(seen + [at], [m], 0, at) == inner;
    assert inner + [at] + [at] == inner + [at, at];
    assert seen + If(false, at) + [at] == seen + [at];
    assert inner + [at] + [at] + If(false, at) == inner + [at] + [at];
  }

  /** Of {"a":[null]}, the object is asked about when it begins and, twice, when it ends; the array, besides,
      by its name; and the null as an element, as itself, at its end and among the others. */
  lemma {:induction false} OrderOfExample(name: Bytes)
    ensures
      var (top, inner, leaf) := ([], [0], [0, 0]);
      Order(Object([Member(name, Array([Atom(Null)]))]))
        == [top, inner, inner, leaf, leaf, leaf, leaf, inner, inner, top, top]
  {
    var root, child, leaf: T.Location := [], [0], [0, 0];
    PlacesOfObject([], Member(name, Array([Atom(Null)])), root);
    assert root + [0] == child && child + [0] == leaf && [] + [root, child] == [root, child];
    PlacesOfArray([root, child], Atom(Null), child);
    assert [root, child] + [child] == [root, child, child];
    PlacesOfElement([root, child, child], leaf);
  }

  function Put(root: Tree, base: Path, at: T.Location): Bytes {
    SpellPath(base + PutNames(root, at))
  }

  function AllPut(root: Tree, base: Path, places: seq<T.Location>): (paths: seq<Bytes>)
    ensures |paths| == |places|
  {
    if places == [] then []
    else AllPut(root, base, places[..|places| - 1]) + [Put(root, base, places[|places| - 1])]
  }

  lemma {:induction false} AllPutAt(root: Tree, base: Path, places: seq<T.Location>, k: nat)
    requires k < |places|
    ensures AllPut(root, base, places)[k] == Put(root, base, places[k])
    decreases places
  {
    if k < |places| - 1 {
      AllPutAt(root, base, places[..|places| - 1], k);
    }
  }

  lemma {:induction false} OneMorePut(root: Tree, base: Path, places: seq<T.Location>, at: T.Location, b: bool)
    ensures AllPut(root, base, places + [at]) == AllPut(root, base, places) + [Put(root, base, at)]
    ensures AllPut(root, base, places + If(b, at)) == AllPut(root, base, places) + If(b, Put(root, base, at))
  {
    assert (places + [at])[..|places|] == places;
    assert places + If(b, at) == if b then places + [at] else places;
  }

  /** A visit puts the path of each place in turn. */
  lemma {:induction false} VisitPuts(root: Tree, base: Path, seen: seq<T.Location>, t: Tree, at: T.Location, inArray: bool)
    requires T.Inside(root, at) && T.ValueAt(root, at) == t
    ensures Visit(AllPut(root, base, seen), t, base + PutNames(root, at), inArray)
         == AllPut(root, base, Places(seen, t, at, inArray))
    decreases t, 2
  {
    OneMorePut(root, base, seen, at, inArray);
    var begun := seen + If(inArray, at);
    OneMorePut(root, base, begun, at, inArray);
    var inside := InsidePuts(root, base, begun + [at], t, at);
    OneMorePut(root, base, inside, at, inArray);
    OneMorePut(root, base, inside + [at], at, inArray);
  }

  lemma {:induction false} InsidePuts(root: Tree, base: Path, begun: seq<T.Location>, t: Tree, at: T.Location)
    returns (inside: seq<T.Location>)
    requires T.Inside(root, at) && T.ValueAt(root, at) == t
    ensures inside ==
      match t
      case Array(elements) => ElementPlaces(begun, elements, 0, at) + [at]
      case Object(members) => MemberPlaces(begun, members, 0, at) + [at]
      case _ => begun
    ensures AllPut(root, base, inside) ==
      match t
      case Array(elements) =>
        VisitElements(AllPut(root, base, begun), elements, 0, base + PutNames(root, at)) + [Put(root, base, at)]
      case Object(members) =>
        VisitMembers(AllPut(root, base, begun), members, base + PutNames(root, at)) + [Put(root, base, at)]
      case _ => AllPut(root, base, begun)
    decreases t, 1
  {
    match t
    case Array(elements) =>
      assert elements[0..] == elements;
      VisitElementsPuts(root, base, begun, t, 0, at);
      inside := ElementPlaces(begun, elements, 0, at);
      OneMorePut(root, base, inside, at, true);
      inside := inside + [at];
    case Object(members) =>
      assert members[0..] == members;
      VisitMembersPuts(root, base, begun, t, 0, at);
      inside := MemberPlaces(begun, members, 0, at);
      OneMorePut(root, base, inside, at, true);
      inside := inside + [at];
    case _ =>
      inside := begun;
  }

  lemma {:induction false} ChildPut(root: Tree, base: Path, at: T.Location, k: nat)
    requires T.Inside(root, at) && k < T.Arity(T.ValueAt(root, at))
    ensures T.Inside(root, at + [k]) && T.ValueAt(root, at + [k]) == T.Child(T.ValueAt(root, at), k)
    ensures base + PutNames(root, at + [k]) == base + PutNames(root, at) + [PutName(T.ValueAt(root, at), k)]
  {
    T.InsideBelow(root, at, k);
    PutNamesBelow(root, at, k);
  }

  lemma {:induction false} NextElement(asked: seq<Bytes>, seen: seq<T.Location>, ts: seq<Tree>, k: nat, i: nat,
        path: Path, at: T.Location)
    requires k < |ts|
    ensures VisitElements(asked, ts[k..], i, path)
         == VisitElements(Visit(asked, ts[k], path + [Numeral(i)], true), ts[k + 1..], Inc(i), path)
    ensures ElementPlaces(seen, ts[k..], k, at)
         == ElementPlaces(Places(seen, ts[k], at + [k], true), ts[k + 1..], k + 1, at)
  {
    assert ts[k..][1..] == ts[k + 1..];
  }

  lemma {:induction false} NextMember(asked: seq<Bytes>, seen: seq<T.Location>, ms: seq<Member>, k: nat,
        path: Path, at: T.Location)
    requires k < |ms|
    ensures
      var there := path + [ms[k].name];
      VisitMembers(asked, ms[k..], path)
        == VisitMembers(Visit(asked + [SpellPath(there)], ms[k].value, there, false), ms[k + 1..], path)
    ensures MemberPlaces(seen, ms[k..], k, at)
         == MemberPlaces(Places(seen + [at + [k]], ms[k].value, at + [k], false), ms[k + 1..], k + 1, at)
  {
    assert ms[k..][1..] == ms[k + 1..];
  }

  lemma {:induction false} VisitElementsPuts(root: Tree, base: Path, seen: seq<T.Location>, t: Tree, k: nat, at: T.Location)
    requires t.Array? && k <= |t.elements| && T.Inside(root, at) && T.ValueAt(root, at) == t
    ensures VisitElements(AllPut(root, base, seen), t.elements[k..], ElementCount(k), base + PutNames(root, at))
         == AllPut(root, base, ElementPlaces(seen, t.elements[k..], k, at))
    decreases t, 0, |t.elements| - k
  {
    if k == |t.elements| {
      assert t.elements[k..] == [];
    } else {
      var next := ElementPuts(root, base, seen, t, k, at);
      VisitElementsPuts(root, base, next, t, k + 1, at);
    }
  }

  lemma {:induction false} ElementPuts(root: Tree, base: Path, seen: seq<T.Location>, t: Tree, k: nat, at: T.Location)
    returns (next: seq<T.Location>)
    requires t.Array? && k < |t.elements| && T.Inside(root, at) && T.ValueAt(root, at) == t
    ensures ElementPlaces(seen, t.elements[k..], k, at) == ElementPlaces(next, t.elements[k + 1..], k + 1, at)
    ensures
      var path := base + PutNames(root, at);
      VisitElements(AllPut(root, base, seen), t.elements[k..], ElementCount(k), path)
        == VisitElements(AllPut(root, base, next), t.elements[k + 1..], ElementCount(k + 1), path)
    decreases t, 0, 0
  {
    next := Places(seen, t.elements[k], at + [k], true);
    ChildPut(root, base, at, k);
    VisitPuts(root, base, seen, t.elements[k], at + [k], true);
    NextElement(AllPut(root, base, seen), seen, t.elements, k, ElementCount(k), base + PutNames(root, at), at);
  }

  lemma {:induction false} VisitMembersPuts(root: Tree, base: Path, seen: seq<T.Location>, t: Tree, k: nat, at: T.Location)
    requires t.Object? && k <= |t.members| && T.Inside(root, at) && T.ValueAt(root, at) == t
    ensures VisitMembers(AllPut(root, base, seen), t.members[k..], base + PutNames(root, at))
         == AllPut(root, base, MemberPlaces(seen, t.members[k..], k, at))
    decreases t, 0, |t.members| - k
  {
    if k == |t.members| {
      assert t.members[k..] == [];
    } else {
      var next := MemberPuts(root, base, seen, t, k, at);
      VisitMembersPuts(root, base, next, t, k + 1, at);
    }
  }

  lemma {:induction false} MemberPuts(root: Tree, base: Path, seen: seq<T.Location>, t: Tree, k: nat, at: T.Location)
    returns (next: seq<T.Location>)
    requires t.Object? && k < |t.members| && T.Inside(root, at) && T.ValueAt(root, at) == t
    ensures MemberPlaces(seen, t.members[k..], k, at) == MemberPlaces(next, t.members[k + 1..], k + 1, at)
    ensures
      var path := base + PutNames(root, at);
      VisitMembers(AllPut(root, base, seen), t.members[k..], path)
        == VisitMembers(AllPut(root, base, next), t.members[k + 1..], path)
    decreases t, 0, 0
  {
    var there := at + [k];
    next := Places(seen + [there], t.members[k].value, there, false);
    ChildPut(root, base, at, k);
    OneMorePut(root, base, seen, there, true);
    VisitPuts(root, base, seen + [there], t.members[k].value, there, false);
    NextMember(AllPut(root, base, seen), seen, t.members, k, base + PutNames(root, at), at);
  }

  // ----- The whole tree is visited, and nothing else -----

  ghost predicate AllInside(root: Tree, places: seq<T.Location>) {
    forall k | 0 <= k < |places| :: T.Inside(root, places[k])
  }

  lemma {:induction false} PlacesInside(root: Tree, seen: seq<T.Location>, t: Tree, at: T.Location, inArray: bool)
    requires AllInside(root, seen) && T.Inside(root, at) && T.ValueAt(root, at) == t
    ensures AllInside(root, Places(seen, t, at, inArray))
    decreases t, 1
  {
    var begun := seen + If(inArray, at);
    MoreInside(root, seen, at, inArray);
    MoreInside(root, begun, at, true);
    var inside := begun + [at];
    match t {
      case Array(elements) =>
        assert elements[0..] == elements;
        ElementPlacesInside(root, inside, t, 0, at);
        inside := ElementPlaces(inside, elements, 0, at);
        MoreInside(root, inside, at, true);
        inside := inside + [at];
      case Object(members) =>
        assert members[0..] == members;
        MemberPlacesInside(root, inside, t, 0, at);
        inside := MemberPlaces(inside, members, 0, at);
        MoreInside(root, inside, at, true);
        inside := inside + [at];
      case _ =>
    }
    MoreInside(root, inside, at, true);
    MoreInside(root, inside + [at], at, inArray);
  }

  lemma {:induction false} MoreInside(root: Tree, places: seq<T.Location>, at: T.Location, b: bool)
    requires AllInside(root, places) && T.Inside(root, at)
    ensures AllInside(root, places + [at]) && AllInside(root, places + If(b, at))
  {}

  lemma {:induction false} ElementPlacesInside(root: Tree, seen: seq<T.Location>, t: Tree, k: nat, at: T.Location)
    requires t.Array? && k <= |t.elements| && AllInside(root, seen) && T.Inside(root, at) && T.ValueAt(root, at) == t
    ensures AllInside(root, ElementPlaces(seen, t.elements[k..], k, at))
    decreases t, 0, |t.elements| - k
  {
    if k < |t.elements| {
      T.InsideBelow(root, at, k);
      PlacesInside(root, seen, t.elements[k], at + [k], true);
      assert t.elements[k..][1..] == t.elements[k + 1..];
      ElementPlacesInside(root, Places(seen, t.elements[k], at + [k], true), t, k + 1, at);
    }
  }

  lemma {:induction false} MemberPlacesInside(root: Tree, seen: seq<T.Location>, t: Tree, k: nat, at: T.Location)
    requires t.Object? && k <= |t.members| && AllInside(root, seen) && T.Inside(root, at) && T.ValueAt(root, at) == t
    ensures AllInside(root, MemberPlaces(seen, t.members[k..], k, at))
    decreases t, 0, |t.members| - k
  {
    if k < |t.members| {
      var there := at + [k];
      T.InsideBelow(root, at, k);
      PlacesInside(root, seen + [there], t.members[k].value, there, false);
      assert t.members[k..][1..] == t.members[k + 1..];
      MemberPlacesInside(root, Places(seen + [there], t.members[k].value, there, false), t, k + 1, at);
    }
  }

  lemma {:induction false} PlacesGrow(seen: seq<T.Location>, t: Tree, at: T.Location, inArray: bool)
    ensures seen + If(inArray, at) + [at] <= Places(seen, t, at, inArray)
    decreases t, 1
  {
    var begun := seen + If(inArray, at) + [at];
    match t
    case Array(elements) => ElementPlacesGrow(begun, elements, 0, at);
    case Object(members) => MemberPlacesGrow(begun, members, 0, at);
    case _ =>
  }

  lemma {:induction false} ElementPlacesGrow(seen: seq<T.Location>, ts: seq<Tree>, k: nat, at: T.Location)
    ensures seen <= ElementPlaces(seen, ts, k, at)
    decreases ts, 0
  {
    if ts != [] {
      PlacesGrow(seen, ts[0], at + [k], true);
      ElementPlacesGrow(Places(seen, ts[0], at + [k], true), ts[1..], k + 1, at);
    }
  }

  lemma {:induction false} MemberPlacesGrow(seen: seq<T.Location>, ms: seq<Member>, k: nat, at: T.Location)
    ensures seen <= MemberPlaces(seen, ms, k, at)
    decreases ms, 0
  {
    if ms != [] {
      PlacesGrow(seen + [at + [k]], ms[0].value, at + [k], false);
      MemberPlacesGrow(Places(seen + [at + [k]], ms[0].value, at + [k], false), ms[1..], k + 1, at);
    }
  }

  lemma {:induction false} PlaceReached(seen: seq<T.Location>, t: Tree, at: T.Location, inArray: bool, below: T.Location)
    requires T.Inside(t, below)
    ensures at + below in Places(seen, t, at, inArray)
    decreases below, 1
  {
    var begun := seen + If(inArray, at) + [at];
    PlacesGrow(seen, t, at, inArray);
    if |below| == 0 {
      assert at + below == at == begun[|begun| - 1] == Places(seen, t, at, inArray)[|begun| - 1];
    } else {
      assert at + below == at + [below[0]] + below[1..];
      match t
      case Array(elements) => ElementReached(begun, elements, 0, at, below[0], below[1..]);
      case Object(members) => MemberReached(begun, members, 0, at, below[0], below[1..]);
    }
  }

  lemma {:induction false} ElementReached(seen: seq<T.Location>, ts: seq<Tree>, k: nat, at: T.Location, j: nat,
        below: T.Location)
    requires j < |ts| && T.Inside(ts[j], below)
    ensures at + [k + j] + below in ElementPlaces(seen, ts, k, at)
    decreases below, 2, j
  {
    var next := Places(seen, ts[0], at + [k], true);
    if j == 0 {
      PlaceReached(seen, ts[0], at + [k], true, below);
      ElementPlacesGrow(next, ts[1..], k + 1, at);
    } else {
      ElementReached(next, ts[1..], k + 1, at, j - 1, below);
    }
  }

  lemma {:induction false} MemberReached(seen: seq<T.Location>, ms: seq<Member>, k: nat, at: T.Location, j: nat,
        below: T.Location)
    requires j < |ms| && T.Inside(ms[j].value, below)
    ensures at + [k + j] + below in MemberPlaces(seen, ms, k, at)
    decreases below, 2, j
  {
    var next := Places(seen + [at + [k]], ms[0].value, at + [k], false);
    if j == 0 {
      PlaceReached(seen + [at + [k]], ms[0].value, at + [k], false, below);
      MemberPlacesGrow(next, ms[1..], k + 1, at);
    } else {
      MemberReached(next, ms[1..], k + 1, at, j - 1, below);
    }
  }

  /** The places that questions are about are those of the tree, each of them and no other. */
  lemma {:induction false} PlacesAreTheTree(t: Tree, at: T.Location)
    ensures at in Order(t) <==> T.Inside(t, at)
  {
    if T.Inside(t, at) {
      PlaceReached([], t, [], false, at);
      assert [] + at == at;
    }
    PlacesInside(t, [], t, [], false);
  }

  // ----- Every question is put at the path of its value -----

  /** No array in the tree has more than 2^32 elements. */
  predicate Short(t: Tree)
    decreases t
  {
    match t
    case Array(elements) => |elements| <= SIZE_TYPE && forall k | 0 <= k < |elements| :: Short(elements[k])
    case Object(members) => forall k | 0 <= k < |members| :: Short(members[k].value)
    case _ => true
  }

  lemma {:induction false} ShortIsCounted(t: Tree, at: T.Location)
    requires Short(t) && T.Inside(t, at)
    ensures Counted(t, at)
    decreases at
  {
    if |at| > 0 {
      ShortIsCounted(T.Child(t, at[0]), at[1..]);
    }
  }

  lemma {:induction false} LongChild(t: Tree) returns (k: nat)
    requires !Short(t) && (t.Array? ==> |t.elements| <= SIZE_TYPE)
    ensures k < T.Arity(t) && !Short(T.Child(t, k))
  {
    match t
    case Array(elements) => k :| 0 <= k < |elements| && !Short(elements[k]);
    case Object(members) => k :| 0 <= k < |members| && !Short(members[k].value);
  }

  lemma {:induction false} LongMiscounts(t: Tree) returns (at: T.Location)
    requires !Short(t)
    ensures T.Inside(t, at) && !Counted(t, at)
    decreases t
  {
    if t.Array? && |t.elements| > SIZE_TYPE {
      at := [SIZE_TYPE];
    } else {
      var k := LongChild(t);
      var below := LongMiscounts(T.Child(t, k));
      at := [k] + below;
      assert at[1..] == below;
    }
  }

  /** A question about the value at a place: it is put at the path of that value if and only if no count
      of elements has wrapped on the way. */
  predicate AskedAt(t: Tree, base: Path, p: Bytes, at: T.Location) {
    && T.Inside(t, at)
    && p == SpellPath(base + PutNames(t, at))
    && (p == SpellPath(base + Names(t, at)) <==> Counted(t, at))
  }

  lemma {:induction false} PutIsAskedAt(t: Tree, base: Path, at: T.Location)
    requires T.Inside(t, at)
    ensures AskedAt(t, base, Put(t, base, at), at)
  {
    PutNamesAreNames(t, at);
    var put, names := PutNames(t, at), Names(t, at);
    if SpellPath(base + put) == SpellPath(base + names) {
      SpelledApart(base + put, base + names);
      assert put == (base + put)[|base|..] == (base + names)[|base|..] == names;
    }
  }

  /** Question after question is about a tree's places in their order; when one is refused, the stack
      still spells what was put, and when none is, the whole tree has been visited. */
  ghost predicate InOrder(t: Tree, base: Path, s: State, places: seq<T.Location>) {
    && |s.asked| <= |places|
    && (forall k | 0 <= k < |s.asked| :: AskedAt(t, base, s.asked[k], places[k]))
    && (s.valid ==> |s.asked| == |places| && s.contexts == [] && s.documentStack == RemoveToken(SpellPath(base)))
    && (!s.valid ==> |s.asked| > 0 && s.documentStack == s.asked[|s.asked| - 1])
  }

  /** Over the events of any tree, whatever the schemas answer: question after question is about the
      places of the tree in their order, and each is put at the path of its value if and only if no
      count of elements has wrapped on the way. */
  lemma {:induction false} PathsAreSpelled(judge: Judge, base: Path, t: Tree)
    ensures InOrder(t, base, Run(judge, Fresh(base), Events(t)), Order(t))
  {
    var s, places := Run(judge, Fresh(base), Events(t)), Order(t);
    RunVisits(judge, base, t);
    assert base + [] == base && AllPut(t, base, []) == [];
    VisitPuts(t, base, [], t, [], false);
    PlacesInside(t, [], t, [], false);
    forall k | 0 <= k < |s.asked| ensures AskedAt(t, base, s.asked[k], places[k]) {
      AllPutAt(t, base, places, k);
      PutIsAskedAt(t, base, places[k]);
    }
  }

  /** The paths put for a whole tree, in order. */
  function Questions(t: Tree, base: Path): seq<Bytes> {
    AllPut(t, base, Order(t))
  }

  /** The judge goes along with every question about a tree. */
  ghost predicate Accepts(judge: Judge, all: seq<Bytes>) {
    forall n | 1 <= n <= |all| :: judge(all[..n])
  }

  /** A state is valid if and only if the judge accepts each question, put one after the other; if not,
      the questions end with the first that he refuses. */
  ghost predicate JudgedBy(judge: Judge, s: State, all: seq<Bytes>) {
    && (s.valid <==> Accepts(judge, all))
    && (s.valid ==> s.asked == all)
    && (!s.valid ==> 0 < |s.asked| <= |all| && s.asked == all[..|s.asked|])
    && (!s.valid ==> !judge(s.asked) && forall n | 1 <= n < |s.asked| :: judge(all[..n]))
  }

  lemma {:induction false} AnsweredIsJudged(judge: Judge, s: State, all: seq<Bytes>)
    requires Answered(judge, s) && s.asked <= all && (s.valid ==> s.asked == all)
    ensures JudgedBy(judge, s, all)
  {
    forall n | 1 <= n < |s.asked| ensures judge(all[..n]) {
      assert all[..n] == s.asked[..n];
    }
    assert all[..|s.asked|] == s.asked;
  }

  /** The verdict on a tree, from the judge and the tree alone. */
  lemma {:induction false} VerdictIsTheJudges(judge: Judge, base: Path, t: Tree)
    ensures JudgedBy(judge, Run(judge, Fresh(base), Events(t)), Questions(t, base))
  {
    RunVisits(judge, base, t);
    RunAnswers(judge, Fresh(base), Events(t));
    VisitIsQuestions(t, base);
    AnsweredIsJudged(judge, Run(judge, Fresh(base), Events(t)), Questions(t, base));
  }

  lemma {:induction false} VisitIsQuestions(t: Tree, base: Path)
    ensures Visit([], t, base, false) == Questions(t, base)
  {
    assert base + [] == base && AllPut(t, base, []) == [];
    VisitPuts(t, base, [], t, [], false);
  }

  /** The true paths of places of a tree. */
  function TruePaths(t: Tree, base: Path, places: seq<T.Location>): (paths: seq<Bytes>) {
    seq(|places|, k requires 0 <= k < |places| => SpellPath(base + Names(t, places[k])))
  }

  lemma {:induction false} ShortPathsAreTrue(t: Tree, base: Path, s: State, places: seq<T.Location>)
    requires InOrder(t, base, s, places) && s.valid && Short(t)
    ensures s.asked == TruePaths(t, base, places)
  {
    forall k | 0 <= k < |places| ensures s.asked[k] == TruePaths(t, base, places)[k] {
      assert AskedAt(t, base, s.asked[k], places[k]);
      ShortIsCounted(t, places[k]);
    }
  }

  lemma {:induction false} LongPathsAreNot(t: Tree, base: Path, s: State, places: seq<T.Location>, at: T.Location)
    requires InOrder(t, base, s, places) && s.valid
    requires T.Inside(t, at) && !Counted(t, at) && at in places
    ensures s.asked != TruePaths(t, base, places)
  {
    var k :| 0 <= k < |places| && places[k] == at;
    assert AskedAt(t, base, s.asked[k], places[k]);
    assert s.asked[k] != TruePaths(t, base, places)[k];
  }

  /** A validation that refuses nothing puts every question at the path of its value if and only if no
      array in the tree has more than 2^32 elements. */
  lemma {:induction false} ValidPathsAreTrue(judge: Judge, base: Path, t: Tree)
    requires Run(judge, Fresh(base), Events(t)).valid
    ensures Run(judge, Fresh(base), Events(t)).asked == TruePaths(t, base, Order(t)) <==> Short(t)
  {
    PathsAreSpelled(judge, base, t);
    if Short(t) {
      ShortPathsAreTrue(t, base, Run(judge, Fresh(base), Events(t)), Order(t));
    } else {
      var at := LongMiscounts(t);
      PlacesAreTheTree(t, at);
      LongPathsAreNot(t, base, Run(judge, Fresh(base), Events(t)), Order(t), at);
    }
  }

  /** In an array of 2^32 nulls and one more, the last is judged under the path of the first. */
  lemma {:induction false} LastIsJudgedAsFirst(base: Path)
    ensures
      var t := Array(T.Nulls(SIZE_TYPE + 1));
      && T.Inside(t, [SIZE_TYPE]) && T.Inside(t, [0])
      && Put(t, base, [SIZE_TYPE]) == Put(t, base, [0]) == SpellPath(base + Names(t, [0]))
      && Put(t, base, [SIZE_TYPE]) != SpellPath(base + Names(t, [SIZE_TYPE]))
  {
    var t := Array(T.Nulls(SIZE_TYPE + 1));
    CountWraps(SIZE_TYPE);
    PutChild(t, base, SIZE_TYPE);
    PutChild(t, base, 0);
  }

  lemma {:induction false} PutChild(t: Tree, base: Path, k: nat)
    requires t.Array? && k < |t.elements|
    ensures T.Inside(t, [k]) && Put(t, base, [k]) == SpellPath(base + [Numeral(ElementCount(k))])
    ensures Put(t, base, [k]) == SpellPath(base + Names(t, [k])) <==> k < SIZE_TYPE
  {
    assert [k][1..] == [];
    assert PutNames(t, [k]) == [Numeral(ElementCount(k))];
    PutIsAskedAt(t, base, [k]);
    assert Counted(t, [k]) <==> k < SIZE_TYPE by {
      assert Counted(T.Child(t, k), []);
    }
  }

  // ----- The pointer to the value that was refused -----

  /** The pointer that GetInvalidDocumentPointer makes of the stack after a refusal has the names put on
      the way to the very value that was refused; and these are the names on the way to it if and only
      if no count of elements has wrapped there. */
  ghost predicate LeadsToRefused(t: Tree, base: Path, s: State, places: seq<T.Location>) {
    && 0 < |s.asked| <= |places|
    && var at := places[|s.asked| - 1];
       && T.Inside(t, at)
       && P.Parse(s.documentStack) == P.Valid(Tokens(base + PutNames(t, at)))
       && (P.Parse(s.documentStack) == P.Valid(Tokens(base + Names(t, at))) <==> Counted(t, at))
  }

  lemma {:induction false} RefusedLeads(t: Tree, base: Path, s: State, places: seq<T.Location>)
    requires InOrder(t, base, s, places) && !s.valid
    ensures LeadsToRefused(t, base, s, places)
  {
    AskedParses(t, base, s.documentStack, places[|s.asked| - 1]);
  }

  lemma {:induction false} InvalidPointerLeads(judge: Judge, base: Path, t: Tree)
    requires !Run(judge, Fresh(base), Events(t)).valid
    ensures LeadsToRefused(t, base, Run(judge, Fresh(base), Events(t)), Order(t))
  {
    PathsAreSpelled(judge, base, t);
    RefusedLeads(t, base, Run(judge, Fresh(base), Events(t)), Order(t));
  }

  lemma {:induction false} AskedParses(t: Tree, base: Path, p: Bytes, at: T.Location)
    requires AskedAt(t, base, p, at)
    ensures P.Parse(p) == P.Valid(Tokens(base + PutNames(t, at)))
    ensures P.Parse(p) == P.Valid(Tokens(base + Names(t, at))) <==> Counted(t, at)
  {
    ParsesAs(base + PutNames(t, at), base + Names(t, at));
    ParsesAs(base + PutNames(t, at), base + PutNames(t, at));
  }

  // ----- Whether it resolves in the document -----

  /** On the way to a place, every element has an index, and every member is the first of its name. */
  predicate Findable(root: Tree, at: T.Location)
    requires T.Inside(root, at)
    decreases at
  {
    |at| == 0 || (ChildIsFound(root, at[0]) && Findable(T.Child(root, at[0]), at[1..]))
  }

  predicate ChildIsFound(v: Tree, k: nat)
    requires k < T.Arity(v)
  {
    match v
    case Array(_) => k < P.INVALID_INDEX
    case Object(members) => forall j | 0 <= j < k :: members[j].name != members[k].name
  }

  lemma {:induction false} PutNameResolves(v: Tree, k: nat)
    requires k < T.Arity(v)
    ensures T.Resolve(v, P.TokenOf(PutName(v, k))) == Some(k) <==> ChildIsFound(v, k)
  {
    match v
    case Array(_) =>
      CountIsExact(k);
      R.IndexTokenIsIndex(ElementCount(k));
    case Object(members) =>
      if ChildIsFound(v, k) {
        T.FirstMember(members, members[k].name, k);
      }
  }

  /** The pointer made of the names put on the way to a place resolves to that place if and only if it
      can be found. */
  lemma {:induction false} PutPathResolves(root: Tree, at: T.Location)
    requires T.Inside(root, at)
    ensures T.Get(root, Tokens(PutNames(root, at))) == Some(at) <==> Findable(root, at)
    decreases at
  {
    if |at| > 0 {
      var k, child, names := at[0], T.Child(root, at[0]), PutNames(root, at);
      PutNameResolves(root, k);
      PutPathResolves(child, at[1..]);
      assert names[1..] == PutNames(child, at[1..]) && Tokens(names)[1..] == Tokens(names[1..]);
      var found := T.Get(root, Tokens(names));
      if found == Some(at) {
        assert found.value[0] == k && found.value[1..] == at[1..];
      }
      assert [k] + at[1..] == at;
    }
  }

  /** The pointer to the refused value, made of the stack of a validator that started at the root of its
      document, resolves to that value's place if and only if it can be found. */
  ghost predicate ResolvesToRefused(t: Tree, s: State, places: seq<T.Location>) {
    && 0 < |s.asked| <= |places|
    && var at, pointer := places[|s.asked| - 1], P.Parse(s.documentStack);
       && T.Inside(t, at) && pointer.Valid?
       && (T.Get(t, pointer.tokens) == Some(at) <==> Findable(t, at))
  }

  lemma {:induction false} LeadingResolves(t: Tree, s: State, places: seq<T.Location>)
    requires LeadsToRefused(t, [], s, places)
    ensures ResolvesToRefused(t, s, places)
  {
    var at := places[|s.asked| - 1];
    assert [] + PutNames(t, at) == PutNames(t, at);
    PutPathResolves(t, at);
  }

  lemma {:induction false} InvalidPointerResolves(judge: Judge, t: Tree)
    requires !Run(judge, Fresh([]), Events(t)).valid
    ensures ResolvesToRefused(t, Run(judge, Fresh([]), Events(t)), Order(t))
  {
    InvalidPointerLeads(judge, [], t);
    LeadingResolves(t, Run(judge, Fresh([]), Events(t)), Order(t));
  }

  /** Where the questions of a run were put, and what its stack is a pointer to. */
  ghost predicate Located(t: Tree, base: Path, s: State, places: seq<T.Location>) {
    && InOrder(t, base, s, places)
    && (s.valid ==> (s.asked == TruePaths(t, base, places) <==> Short(t)))
    && (!s.valid ==> LeadsToRefused(t, base, s, places))
    && (!s.valid && base == [] ==> ResolvesToRefused(t, s, places))
  }

  lemma {:induction false} RunIsLocated(judge: Judge, base: Path, t: Tree)
    ensures Located(t, base, Run(judge, Fresh(base), Events(t)), Order(t))
  {
    PathsAreSpelled(judge, base, t);
    if Run(judge, Fresh(base), Events(t)).valid {
      ValidPathsAreTrue(judge, base, t);
    } else {
      InvalidPointerLeads(judge, base, t);
      if base == [] {
        InvalidPointerResolves(judge, t);
      }
    }
  }

  /** No array in the tree has 2^32 elements or more, and no object two members of the same name. */
  predicate WellNamed(t: Tree)
    decreases t
  {
    match t
    case Array(elements) => |elements| <= P.INVALID_INDEX && forall k | 0 <= k < |elements| :: WellNamed(elements[k])
    case Object(members) =>
      && (forall j, k | 0 <= j < k < |members| :: members[j].name != members[k].name)
      && forall k | 0 <= k < |members| :: WellNamed(members[k].value)
    case _ => true
  }

  lemma {:induction false} WellNamedIsFound(t: Tree, at: T.Location)
    requires WellNamed(t) && T.Inside(t, at)
    ensures Findable(t, at)
    decreases at
  {
    if |at| > 0 {
      WellNamedIsFound(T.Child(t, at[0]), at[1..]);
    }
  }

  lemma {:induction false} IllNamedChild(t: Tree) returns (k: nat)
    requires !WellNamed(t) && (t.Array? ==> |t.elements| <= P.INVALID_INDEX)
    requires t.Object? ==> forall j, k | 0 <= j < k < |t.members| :: t.members[j].name != t.members[k].name
    ensures k < T.Arity(t) && !WellNamed(T.Child(t, k))
  {
    match t
    case Array(elements) => k :| 0 <= k < |elements| && !WellNamed(elements[k]);
    case Object(members) => k :| 0 <= k < |members| && !WellNamed(members[k].value);
  }

  lemma {:induction false} IllNamedIsLost(t: Tree) returns (at: T.Location)
    requires !WellNamed(t)
    ensures T.Inside(t, at) && !Findable(t, at)
    decreases t
  {
    if t.Array? && |t.elements| > P.INVALID_INDEX {
      at := [P.INVALID_INDEX];
    } else if t.Object? && exists j, k :: 0 <= j < k < |t.members| && t.members[j].name == t.members[k].name {
      var j, k :| 0 <= j < k < |t.members| && t.members[j].name == t.members[k].name;
      at := [k];
      assert !ChildIsFound(t, k);
    } else {
      var k := IllNamedChild(t);
      var below := IllNamedIsLost(T.Child(t, k));
      at := [k] + below;
      assert at[1..] == below;
    }
  }

  /** Every place of a tree can be found if and only if the tree is well named. */
  lemma {:induction false} AllFoundIffWellNamed(t: Tree)
    ensures (forall at | T.Inside(t, at) :: Findable(t, at)) <==> WellNamed(t)
  {
    if WellNamed(t) {
      forall at | T.Inside(t, at) ensures Findable(t, at) {
        WellNamedIsFound(t, at);
      }
    } else {
      var at := IllNamedIsLost(t);
    }
  }
}
