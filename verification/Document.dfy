/** The DOM builder: GenericDocument as a handler that rebuilds a tree on a flat stack. */
module Document {
  import opened Basics
  import opened JsonSyntax
  import opened JsonTree
  import opened Descent
  import opened Grammar

  // ----- The value stack -----

  /** A container's values read as name-value pairs, when they are that. */
  function Pairs(vs: seq<Tree>): Option<seq<Member>> {
    if vs == [] then Some([])
    else if |vs| == 1 || !vs[0].Text? then None
    else match Pairs(vs[2..])
         case None => None
         case Some(ms) => Some([Member(vs[0].text, vs[1])] + ms)
  }

  /** The handler methods. None is a pop below the bottom of the stack, or a member whose name is
      not a string. */
  function OnEvent(stack: seq<Tree>, e: Event): Option<seq<Tree>> {
    match e
    case Value(s) => Some(stack + [Atom(s)])
    case String(text) => Some(stack + [Text(text)])
    case Key(name) => Some(stack + [Text(name)])
    case StartObject => Some(stack + [Object([])])
    case StartArray => Some(stack + [Array([])])
    case EndArray(n) =>
      if |stack| < n + 1 then None else
      var slot := |stack| - n - 1;
      Some(stack[..slot] + [Array(stack[slot + 1..])])
    case EndObject(n) =>
      if |stack| < 2 * n + 1 then None else
      var slot := |stack| - 2 * n - 1;
      match Pairs(stack[slot + 1..])
      case None => None
      case Some(ms) => Some(stack[..slot] + [Object(ms)])
  }

  /** The stack after every event of a log. */
  function Build(es: seq<Event>): Option<seq<Tree>> {
    if es == [] then Some([])
    else match Build(es[..|es| - 1])
         case None => None
         case Some(stack) => OnEvent(stack, es[|es| - 1])
  }

  lemma {:induction false} BuildNext(es: seq<Event>, e: Event)
    ensures Build(es + [e]) == if Build(es).None? then None else OnEvent(Build(es).value, e)
  {
    assert (es + [e])[..|es|] == es;
  }

  lemma {:induction false} Extend(es: seq<Event>, stack: seq<Tree>, e: Event, es': seq<Event>, stack': seq<Tree>)
    requires Build(es) == Some(stack) && OnEvent(stack, e) == Some(stack') && es' == es + [e]
    ensures Build(es') == Some(stack')
  {
    BuildNext(es, e);
  }

  // ----- How many values a log leaves -----

  /** By how much an event changes the number of values on the stack. */
  function Change(e: Event): int {
    match e
    case EndArray(n) => 0 - n
    case EndObject(n) => 0 - 2 * n
    case _ => 1
  }

  /** The number of values on the stack after every event of a log. */
  function Height(es: seq<Event>): int {
    if es == [] then 0 else Height(es[..|es| - 1]) + Change(es[|es| - 1])
  }

  /** How many values an event finds on the stack before it: those it pops, and the slot below. */
  function Needs(e: Event): nat {
    match e
    case EndArray(n) => n + 1
    case EndObject(n) => 2 * n + 1
    case _ => 0
  }

  /** No event of a log pops below the bottom of the stack. */
  predicate Covered(es: seq<Event>) {
    es == [] || (Covered(es[..|es| - 1]) && Needs(es[|es| - 1]) <= Height(es[..|es| - 1]))
  }

  lemma {:induction false} HeightNext(es: seq<Event>, e: Event)
    ensures Height(es + [e]) == Height(es) + Change(e)
    ensures Covered(es + [e]) <==> Covered(es) && Needs(e) <= Height(es)
  {
    assert (es + [e])[..|es|] == es;
  }

  lemma {:induction false} BuiltHeight(es: seq<Event>)
    requires Build(es).Some?
    ensures Height(es) == |Build(es).value| && Covered(es)
  {
    if es != [] {
      var before, e := es[..|es| - 1], es[|es| - 1];
      BuiltHeight(before);
      EventHeight(Build(before).value, e);
    }
  }

  lemma {:induction false} EventHeight(stack: seq<Tree>, e: Event)
    requires OnEvent(stack, e).Some?
    ensures |OnEvent(stack, e).value| == |stack| + Change(e) && Needs(e) <= |stack|
  {}

  /** GenericDocument, with the handler methods that change its stack. */
  class GenericDocument {
    var stack: seq<Tree>

    constructor ()
      ensures stack == []
    {
      stack := [];
    }

    method Null()
      modifies this
      ensures Some(stack) == OnEvent(old(stack), Value(Scalar.Null))
    {
      stack := stack + [Atom(Scalar.Null)];
    }

    method Bool(b: bool)
      modifies this
      ensures Some(stack) == OnEvent(old(stack), Value(Scalar.Bool(b)))
    {
      stack := stack + [Atom(Scalar.Bool(b))];
    }

    method Number(n: Number)
      modifies this
      ensures Some(stack) == OnEvent(old(stack), Value(Num(n)))
    {
      stack := stack + [Atom(Num(n))];
    }

    method String(text: Bytes)
      modifies this
      ensures Some(stack) == OnEvent(old(stack), Event.String(text))
    {
      stack := stack + [Text(text)];
    }

    method Key(name: Bytes)
      modifies this
      ensures Some(stack) == OnEvent(old(stack), Event.Key(name))
    {
      String(name);
    }

    method StartObject()
      modifies this
      ensures Some(stack) == OnEvent(old(stack), Event.StartObject)
    {
      stack := stack + [Object([])];
    }

    method EndObject(memberCount: nat)
      requires OnEvent(stack, Event.EndObject(memberCount)).Some?
      modifies this
      ensures Some(stack) == OnEvent(old(stack), Event.EndObject(memberCount))
    {
      var top := |stack| - 2 * memberCount;
      var members := Pairs(stack[top..]);
      stack := stack[..top];
      stack := stack[|stack| - 1 := Object(members.value)];
      assert stack == old(stack)[..top - 1] + [Object(members.value)];
    }

    method StartArray()
      modifies this
      ensures Some(stack) == OnEvent(old(stack), Event.StartArray)
    {
      stack := stack + [Array([])];
    }

    method EndArray(elementCount: nat)
      requires OnEvent(stack, Event.EndArray(elementCount)).Some?
      modifies this
      ensures Some(stack) == OnEvent(old(stack), Event.EndArray(elementCount))
    {
      var top := |stack| - elementCount;
      var elements := stack[top..];
      stack := stack[..top];
      stack := stack[|stack| - 1 := Array(elements)];
      assert stack == old(stack)[..top - 1] + [Array(elements)];
    }
  }

  // ----- Rebuilding a tree from its events -----

  /** No container has more children than a SizeType counts. */
  predicate Countable(t: Tree)
    decreases t, 1
  {
    match t
    case Atom(_) => true
    case Text(_) => true
    case Array(elements) => |elements| < SIZE_TYPE && ElementsCountable(elements)
    case Object(members) => |members| < SIZE_TYPE && MembersCountable(members)
  }

  predicate ElementsCountable(ts: seq<Tree>)
    decreases ts, 0
  {
    ts == [] || (Countable(ts[0]) && ElementsCountable(ts[1..]))
  }

  predicate MembersCountable(ms: seq<Member>)
    decreases ms, 0
  {
    ms == [] || (Countable(ms[0].value) && MembersCountable(ms[1..]))
  }

  /** Names and values in the order in which they are pushed. */
  function Unpaired(ms: seq<Member>): (vs: seq<Tree>)
    ensures |vs| == 2 * |ms|
  {
    if ms == [] then [] else [Text(ms[0].name), ms[0].value] + Unpaired(ms[1..])
  }

  lemma {:induction false} PairsOfUnpaired(ms: seq<Member>)
    ensures Pairs(Unpaired(ms)) == Some(ms)
  {
    if ms != [] {
      PairsOfUnpaired(ms[1..]);
      var vs := Unpaired(ms);
      assert vs[2..] == Unpaired(ms[1..]);
      assert vs[0] == Text(ms[0].name) && vs[1] == ms[0].value;
      assert Member(vs[0].text, vs[1]) == ms[0];
      assert Pairs(vs) == Some([ms[0]] + ms[1..]);
      assert [ms[0]] + ms[1..] == ms;
    }
  }

  lemma {:induction false} CloseArray(stack: seq<Tree>, elements: seq<Tree>)
    ensures OnEvent(stack + [Array([])] + elements, Event.EndArray(|elements|)) == Some(stack + [Array(elements)])
  {
    var all := stack + [Array([])] + elements;
    assert all[..|stack|] == stack && all[|stack| + 1..] == elements;
  }

  lemma {:induction false} CloseObject(stack: seq<Tree>, members: seq<Member>)
    ensures OnEvent(stack + [Object([])] + Unpaired(members), Event.EndObject(|members|)) == Some(stack + [Object(members)])
  {
    var all := stack + [Object([])] + Unpaired(members);
    assert all[..|stack|] == stack && all[|stack| + 1..] == Unpaired(members);
    PairsOfUnpaired(members);
  }

  lemma {:induction false} RebuildTree(es: seq<Event>, stack: seq<Tree>, t: Tree)
    requires Build(es) == Some(stack) && Countable(t)
    ensures Build(Accept(es, t)) == Some(stack + [t])
    decreases t, 1
  {
    match t {
      case Atom(s) => BuildNext(es, Value(s));
      case Text(text) => BuildNext(es, Event.String(text));
      case Array(elements) => RebuildArray(es, stack, elements);
      case Object(members) => RebuildObject(es, stack, members);
    }
  }

  lemma {:induction false} ArrayLog(es: seq<Event>, elements: seq<Tree>)
    requires |elements| < SIZE_TYPE
    ensures Accept(es, Array(elements))
         == AcceptElements(es + [Event.StartArray], elements) + [Event.EndArray(|elements|)]
  {
    CountFits(|elements|);
  }

  lemma {:induction false} CountFits(n: nat)
    requires n < SIZE_TYPE
    ensures n % SIZE_TYPE == n
  {}

  lemma {:induction false} ObjectLog(es: seq<Event>, members: seq<Member>)
    requires |members| < SIZE_TYPE
    ensures Accept(es, Object(members))
         == AcceptMembers(es + [Event.StartObject], members) + [Event.EndObject(|members|)]
  {
    CountFits(|members|);
  }

  lemma {:induction false} RebuildArray(es: seq<Event>, stack: seq<Tree>, elements: seq<Tree>)
    requires Build(es) == Some(stack) && Countable(Array(elements))
    ensures Build(Accept(es, Array(elements))) == Some(stack + [Array(elements)])
    decreases elements, 2
  {
    var es1 := es + [Event.StartArray];
    Extend(es, stack, Event.StartArray, es1, stack + [Array([])]);
    RebuildElements(es1, stack + [Array([])], elements);
    CloseArray(stack, elements);
    ArrayLog(es, elements);
    Extend(AcceptElements(es1, elements), stack + [Array([])] + elements, Event.EndArray(|elements|),
           Accept(es, Array(elements)), stack + [Array(elements)]);
  }

  lemma {:induction false} RebuildObject(es: seq<Event>, stack: seq<Tree>, members: seq<Member>)
    requires Build(es) == Some(stack) && Countable(Object(members))
    ensures Build(Accept(es, Object(members))) == Some(stack + [Object(members)])
    decreases members, 2
  {
    var es1 := es + [Event.StartObject];
    Extend(es, stack, Event.StartObject, es1, stack + [Object([])]);
    RebuildMembers(es1, stack + [Object([])], members);
    CloseObject(stack, members);
    ObjectLog(es, members);
    Extend(AcceptMembers(es1, members), stack + [Object([])] + Unpaired(members), Event.EndObject(|members|),
           Accept(es, Object(members)), stack + [Object(members)]);
  }

  lemma {:induction false} RebuildElements(es: seq<Event>, stack: seq<Tree>, ts: seq<Tree>)
    requires Build(es) == Some(stack) && ElementsCountable(ts)
    ensures Build(AcceptElements(es, ts)) == Some(stack + ts)
    decreases ts, 0
  {
    if ts == [] {
      assert stack + ts == stack;
    } else {
      RebuildTree(es, stack, ts[0]);
      RebuildElements(Accept(es, ts[0]), stack + [ts[0]], ts[1..]);
      PushFirst(stack, ts);
    }
  }

  lemma {:induction false} PushFirst(stack: seq<Tree>, ts: seq<Tree>)
    requires ts != []
    ensures stack + [ts[0]] + ts[1..] == stack + ts
  {}

  lemma {:induction false} RebuildMembers(es: seq<Event>, stack: seq<Tree>, ms: seq<Member>)
    requires Build(es) == Some(stack) && MembersCountable(ms)
    ensures Build(AcceptMembers(es, ms)) == Some(stack + Unpaired(ms))
    decreases ms, 0
  {
    if ms == [] {
      assert stack + Unpaired(ms) == stack;
    } else {
      var name, value := Text(ms[0].name), ms[0].value;
      var es1 := es + [Event.Key(ms[0].name)];
      BuildNext(es, Event.Key(ms[0].name));
      RebuildTree(es1, stack + [name], value);
      RebuildMembers(Accept(es1, value), stack + [name] + [value], ms[1..]);
      PushFirstPair(stack, ms);
    }
  }

  lemma {:induction false} PushFirstPair(stack: seq<Tree>, ms: seq<Member>)
    requires ms != []
    ensures stack + [Text(ms[0].name)] + [ms[0].value] + Unpaired(ms[1..]) == stack + Unpaired(ms)
  {}

  // ----- A container that is too large leaves values behind -----

  lemma {:induction false} Wraps(n: nat)
    ensures 0 <= n % SIZE_TYPE <= n
    ensures n % SIZE_TYPE == n <==> n < SIZE_TYPE
  {}

  /** Announcing a tree adds one value at least, and exactly one if and only if no container has more
      children than a SizeType counts: what a wrapped count leaves, no enclosing container takes. */
  lemma {:induction false} HeightOfTree(es: seq<Event>, t: Tree)
    ensures Height(Accept(es, t)) >= Height(es) + 1
    ensures Height(Accept(es, t)) == Height(es) + 1 <==> Countable(t)
    decreases t, 1
  {
    match t {
      case Atom(s) => HeightNext(es, Value(s));
      case Text(text) => HeightNext(es, Event.String(text));
      case Array(elements) =>
        HeightNext(es, Event.StartArray);
        HeightOfElements(es + [Event.StartArray], elements);
        HeightNext(AcceptElements(es + [Event.StartArray], elements), Event.EndArray(|elements| % SIZE_TYPE));
        Wraps(|elements|);
      case Object(members) =>
        HeightNext(es, Event.StartObject);
        HeightOfMembers(es + [Event.StartObject], members);
        HeightNext(AcceptMembers(es + [Event.StartObject], members), Event.EndObject(|members| % SIZE_TYPE));
        Wraps(|members|);
    }
  }

  lemma {:induction false} HeightOfElements(es: seq<Event>, ts: seq<Tree>)
    ensures Height(AcceptElements(es, ts)) >= Height(es) + |ts|
    ensures Height(AcceptElements(es, ts)) == Height(es) + |ts| <==> ElementsCountable(ts)
    decreases ts, 0
  {
    if ts != [] {
      HeightOfTree(es, ts[0]);
      HeightOfElements(Accept(es, ts[0]), ts[1..]);
    }
  }

  lemma {:induction false} HeightOfMembers(es: seq<Event>, ms: seq<Member>)
    ensures Height(AcceptMembers(es, ms)) >= Height(es) + 2 * |ms|
    ensures Height(AcceptMembers(es, ms)) == Height(es) + 2 * |ms| <==> MembersCountable(ms)
    decreases ms, 0
  {
    if ms != [] {
      var es1 := es + [Event.Key(ms[0].name)];
      HeightNext(es, Event.Key(ms[0].name));
      HeightOfTree(es1, ms[0].value);
      HeightOfMembers(Accept(es1, ms[0].value), ms[1..]);
    }
  }

  /** Announcing a tree to a document pushes exactly that tree, whatever lies below it, if and only if
      no count wraps. */
  lemma {:induction false} AnnouncedTree(es: seq<Event>, stack: seq<Tree>, t: Tree)
    requires Build(es) == Some(stack)
    ensures Build(Accept(es, t)) == Some(stack + [t]) <==> Countable(t)
  {
    if Build(Accept(es, t)) == Some(stack + [t]) {
      BuiltHeight(es);
      BuiltHeight(Accept(es, t));
      HeightOfTree(es, t);
    }
    if Countable(t) {
      RebuildTree(es, stack, t);
    }
  }

  lemma {:induction false} AnnouncedFromScratch(t: Tree)
    ensures Build(Events(t)) == Some([t]) <==> Countable(t)
    ensures Height(Events(t)) == 1 <==> Countable(t)
  {
    assert [] + [t] == [t];
    AnnouncedTree([], [], t);
    HeightFromScratch(t);
  }

  lemma {:induction false} HeightFromScratch(t: Tree)
    ensures Height(Events(t)) == 1 <==> Countable(t)
  {
    assert Height([]) == 0;
    HeightOfTree([], t);
  }

  // ----- Documents -----

  /** ParseStream: parsing a text into a document leaves the tree which the text spells, by itself, if
      and only if no container in it has more children than a SizeType counts; and exactly then it
      leaves one value, as the source asserts. */
  lemma {:induction false} ParsedTree(fl: Flags, h: Handler, ts: seq<Token>, d: Doc, unread: seq<Token>)
    requires NeverStops(h) && Spells(fl, ts, d, unread)
    ensures Build(Parse(fl, h, ts).events) == Some([Meaning(d)]) <==> Countable(Meaning(d))
    ensures Height(Parse(fl, h, ts).events) == 1 <==> Countable(Meaning(d))
  {
    DocumentEvents(fl, h, ts, d, unread);
    AnnouncedFromScratch(Meaning(d));
  }

  // ----- Short texts have countable trees -----

  lemma {:induction false} SpellingIsLong(d: Doc, more: seq<Token>)
    ensures |Spell(d, more)| > |more|
    ensures |Spell(d, more)| <= |more| + SIZE_TYPE ==> Countable(Meaning(d))
    decreases d, 1
  {
    match d {
      case AtomDoc(_) =>
      case TextDoc(_) =>
      case ArrayDoc(ds, trailing) =>
        if ds != [] {
          ElementSpellingIsLong(ds, trailing, more);
        }
      case ObjectDoc(ms, trailing) =>
        if ms != [] {
          MemberSpellingIsLong(ms, trailing, more);
        }
    }
  }

  lemma {:induction false} ElementSpellingIsLong(ds: seq<Doc>, trailing: bool, more: seq<Token>)
    requires ds != []
    ensures |SpellElements(ds, trailing, more)| > |more| + |ds|
    ensures |SpellElements(ds, trailing, more)| < |more| + SIZE_TYPE ==> ElementsCountable(ElementMeanings(ds))
    decreases ds, 0
  {
    SpellingIsLong(ds[0], AfterElement(ds, trailing, more));
    assert ElementMeanings(ds)[1..] == ElementMeanings(ds[1..]);
    if |ds| > 1 {
      ElementSpellingIsLong(ds[1..], trailing, more);
    }
  }

  lemma {:induction false} MemberSpellingIsLong(ms: seq<MemberDoc>, trailing: bool, more: seq<Token>)
    requires ms != []
    ensures |SpellMembers(ms, trailing, more)| > |more| + |ms|
    ensures |SpellMembers(ms, trailing, more)| < |more| + SIZE_TYPE ==> MembersCountable(MemberMeanings(ms))
    decreases ms, 0
  {
    SpellingIsLong(ms[0].value, AfterMember(ms, trailing, more));
    assert MemberMeanings(ms)[1..] == MemberMeanings(ms[1..]);
    if |ms| > 1 {
      MemberSpellingIsLong(ms[1..], trailing, more);
    }
  }

  lemma {:induction false} StripIsShorter(ts: seq<Token>)
    ensures |Strip(ts)| <= |ts|
  {
    if ts != [] {
      StripIsShorter(ts[1..]);
    }
  }

  /** In a text of at most 2^32 tokens, no container is too large. */
  lemma {:induction false} ShortTextIsCountable(fl: Flags, ts: seq<Token>, d: Doc, unread: seq<Token>)
    requires |ts| <= SIZE_TYPE && Spells(fl, ts, d, unread)
    ensures Countable(Meaning(d))
  {
    StripIsShorter(ts);
    SpellingIsLong(d, unread);
  }
}
