/** Value trees, the events that announce them, and the texts that spell them. */
module JsonTree {
  import opened Basics
  import opened JsonSyntax

  datatype Tree =
    | Atom(s: Scalar)
    | Text(text: Bytes)
    | Array(elements: seq<Tree>)
    | Object(members: seq<Member>)

  datatype Member = Member(name: Bytes, value: Tree)

  // ----- Accept: the events of a tree -----

  // A handler's log before and after a tree is announced to it. The count that closes a
  // container is a SizeType.
  function Accept(es: seq<Event>, t: Tree): seq<Event>
    decreases t, 1
  {
    match t
    case Atom(s) => es + [Value(s)]
    case Text(text) => es + [String(text)]
    case Array(elements) => AcceptElements(es + [StartArray], elements) + [EndArray(|elements| % SIZE_TYPE)]
    case Object(members) => AcceptMembers(es + [StartObject], members) + [EndObject(|members| % SIZE_TYPE)]
  }

  function AcceptElements(es: seq<Event>, ts: seq<Tree>): seq<Event>
    decreases ts, 0
  {
    if ts == [] then es else AcceptElements(Accept(es, ts[0]), ts[1..])
  }

  function AcceptMembers(es: seq<Event>, ms: seq<Member>): seq<Event>
    decreases ms, 0
  {
    if ms == [] then es else AcceptMembers(Accept(es + [Key(ms[0].name)], ms[0].value), ms[1..])
  }

  function Events(t: Tree): seq<Event> {
    Accept([], t)
  }

  // ----- Concrete documents: a tree, and where it was written with trailing commas -----

  datatype Doc =
    | AtomDoc(s: Scalar)
    | TextDoc(text: Bytes)
    | ArrayDoc(elements: seq<Doc>, trailing: bool)
    | ObjectDoc(members: seq<MemberDoc>, trailing: bool)

  datatype MemberDoc = MemberDoc(name: Bytes, value: Doc)

  /** The tree a document denotes. */
  function Meaning(d: Doc): Tree
    decreases d, 1
  {
    match d
    case AtomDoc(s) => Atom(s)
    case TextDoc(text) => Text(text)
    case ArrayDoc(elements, _) => Array(ElementMeanings(elements))
    case ObjectDoc(members, _) => Object(MemberMeanings(members))
  }

  function ElementMeanings(ds: seq<Doc>): (ts: seq<Tree>)
    ensures |ts| == |ds|
    decreases ds, 0
  {
    if ds == [] then [] else [Meaning(ds[0])] + ElementMeanings(ds[1..])
  }

  function MemberMeanings(ms: seq<MemberDoc>): (ts: seq<Member>)
    ensures |ts| == |ms|
    decreases ms, 0
  {
    if ms == [] then [] else [Member(ms[0].name, Meaning(ms[0].value))] + MemberMeanings(ms[1..])
  }

  /** The document is written in the language the flags select: trailing commas only where
      they are enabled, and then only after an element or member. */
  predicate Allowed(fl: Flags, d: Doc)
    decreases d, 1
  {
    match d
    case AtomDoc(_) => true
    case TextDoc(_) => true
    case ArrayDoc(elements, trailing) =>
      ElementsAllowed(fl, elements) && (trailing ==> fl.trailingCommas && elements != [])
    case ObjectDoc(members, trailing) =>
      MembersAllowed(fl, members) && (trailing ==> fl.trailingCommas && members != [])
  }

  predicate ElementsAllowed(fl: Flags, ds: seq<Doc>)
    decreases ds, 0
  {
    ds == [] || (Allowed(fl, ds[0]) && ElementsAllowed(fl, ds[1..]))
  }

  predicate MembersAllowed(fl: Flags, ms: seq<MemberDoc>)
    decreases ms, 0
  {
    ms == [] || (Allowed(fl, ms[0].value) && MembersAllowed(fl, ms[1..]))
  }

  // ----- Spelling: the tokens of a document, without whitespace -----

  function SpellScalar(s: Scalar): Token {
    match s
    case Null => NullLit(true)
    case Bool(b) => if b then TrueLit(true) else FalseLit(true)
    case Num(n) => NumberLit(Good(n))
  }

  /** The document d followed by more text. */
  function Spell(d: Doc, more: seq<Token>): (ts: seq<Token>)
    ensures ts != [] && ts[0] == FirstToken(d)
    decreases d, 1
  {
    match d
    case AtomDoc(s) => [SpellScalar(s)] + more
    case TextDoc(text) => [Str(Good(text))] + more
    case ArrayDoc(elements, trailing) =>
      [LeftBracket] + if elements == [] then [RightBracket] + more else SpellElements(elements, trailing, more)
    case ObjectDoc(members, trailing) =>
      [LeftBrace] + if members == [] then [RightBrace] + more else SpellMembers(members, trailing, more)
  }

  function FirstToken(d: Doc): (t: Token)
    ensures !t.Space? && !t.RightBracket? && !t.RightBrace? && !t.Comma? && !t.Colon?
  {
    match d
    case AtomDoc(s) => SpellScalar(s)
    case TextDoc(text) => Str(Good(text))
    case ArrayDoc(_, _) => LeftBracket
    case ObjectDoc(_, _) => LeftBrace
  }

  /** The end of a container, with a trailing comma or without. */
  function Close(trailing: bool, bracket: Token, more: seq<Token>): seq<Token> {
    if trailing then [Comma] + ([bracket] + more) else [bracket] + more
  }

  /** One or more elements, the bracket that ends them, and more text. */
  function SpellElements(ds: seq<Doc>, trailing: bool, more: seq<Token>): (ts: seq<Token>)
    requires ds != []
    ensures ts != [] && ts[0] == FirstToken(ds[0])
    decreases ds, 0
  {
    Spell(ds[0], AfterElement(ds, trailing, more))
  }

  function AfterElement(ds: seq<Doc>, trailing: bool, more: seq<Token>): (ts: seq<Token>)
    requires ds != []
    decreases ds[1..], 2
  {
    if |ds| == 1 then Close(trailing, RightBracket, more)
    else [Comma] + SpellElements(ds[1..], trailing, more)
  }

  /** One or more members, the brace that ends them, and more text. */
  function SpellMembers(ms: seq<MemberDoc>, trailing: bool, more: seq<Token>): (ts: seq<Token>)
    requires ms != []
    ensures ts != [] && ts[0] == Str(Good(ms[0].name))
    decreases ms, 0
  {
    [Str(Good(ms[0].name))] + ([Colon] + Spell(ms[0].value, AfterMember(ms, trailing, more)))
  }

  function AfterMember(ms: seq<MemberDoc>, trailing: bool, more: seq<Token>): (ts: seq<Token>)
    requires ms != []
    decreases ms[1..], 2
  {
    if |ms| == 1 then Close(trailing, RightBrace, more)
    else [Comma] + SpellMembers(ms[1..], trailing, more)
  }
}
