/** The table-driven parser: Tokenize, Predict, Transit, HandleError, IterativeParse and
    IterativeParseNext of reader.h, as functions on a configuration. */
module Pushdown {
  import opened JsonSyntax

  datatype State =
    | Finish
    | Error
    | Start
    | ObjectInitial
    | MemberKey
    | MemberValue
    | ObjectFinish
    | ArrayInitial
    | Element
    | ArrayFinish
    | SingleValue
    | ElementDelimiter
    | MemberDelimiter
    | KeyValueDelimiter

  predicate IsDelimiter(s: State) {
    s == ElementDelimiter || s == MemberDelimiter || s == KeyValueDelimiter
  }

  datatype TokenKind =
    | LeftBracketKind
    | RightBracketKind
    | LeftBraceKind
    | RightBraceKind
    | CommaKind
    | ColonKind
    | StringKind
    | FalseKind
    | TrueKind
    | NullKind
    | NumberKind

  /** Tokenize on the next character, which is NUL at the end of input. Every character that
      begins no other token, whitespace and NUL included, is classed as a number. */
  function Tokenize(ts: seq<Token>): TokenKind {
    if ts == [] then NumberKind else
    match ts[0]
    case Space => NumberKind
    case LeftBracket => LeftBracketKind
    case RightBracket => RightBracketKind
    case LeftBrace => LeftBraceKind
    case RightBrace => RightBraceKind
    case Comma => CommaKind
    case Colon => ColonKind
    case Str(_) => StringKind
    case FalseLit(_) => FalseKind
    case TrueLit(_) => TrueKind
    case NullLit(_) => NullKind
    case NumberLit(_) => NumberKind
  }

  /** The 14 by 11 table. The columns of the five scalar kinds agree except where a string
      may be a member's name. */
  function Predict(state: State, kind: TokenKind): State {
    match state
    case Start =>
      (match kind
       case LeftBracketKind => ArrayInitial
       case LeftBraceKind => ObjectInitial
       case StringKind | FalseKind | TrueKind | NullKind | NumberKind => SingleValue
       case _ => Error)
    case ObjectInitial =>
      (match kind
       case RightBraceKind => ObjectFinish
       case StringKind => MemberKey
       case _ => Error)
    case MemberKey =>
      (match kind
       case ColonKind => KeyValueDelimiter
       case _ => Error)
    case MemberValue =>
      (match kind
       case RightBraceKind => ObjectFinish
       case CommaKind => MemberDelimiter
       case _ => Error)
    case ArrayInitial =>
      (match kind
       case LeftBracketKind => ArrayInitial
       case RightBracketKind => ArrayFinish
       case LeftBraceKind => ObjectInitial
       case StringKind | FalseKind | TrueKind | NullKind | NumberKind => Element
       case _ => Error)
    case Element =>
      (match kind
       case RightBracketKind => ArrayFinish
       case CommaKind => ElementDelimiter
       case _ => Error)
    case ElementDelimiter =>
      (match kind
       case LeftBracketKind => ArrayInitial
       case RightBracketKind => ArrayFinish
       case LeftBraceKind => ObjectInitial
       case StringKind | FalseKind | TrueKind | NullKind | NumberKind => Element
       case _ => Error)
    case MemberDelimiter =>
      (match kind
       case RightBraceKind => ObjectFinish
       case StringKind => MemberKey
       case _ => Error)
    case KeyValueDelimiter =>
      (match kind
       case LeftBracketKind => ArrayInitial
       case LeftBraceKind => ObjectInitial
       case StringKind | FalseKind | TrueKind | NullKind | NumberKind => MemberValue
       case _ => Error)
    case Finish | Error | ObjectFinish | ArrayFinish | SingleValue => Error
  }

  // ----- Configurations -----

  // Opening a container pushes the state to come back to and a count; the two are always
  // pushed and popped together.
  datatype Stack = Bottom | Push(back: State, count: nat, below: Stack)

  datatype Config = Config(state: State, stack: Stack, rest: seq<Token>, events: seq<Event>)

  /** Every frame returns to where a container may stand as a value: the root container to the
      start state, the others to an element or a member's value. */
  predicate FramesOK(stack: Stack) {
    match stack
    case Bottom => true
    case Push(back, _, below) =>
      && FramesOK(below)
      && (if below.Bottom? then back == Start else back == Element || back == MemberValue)
  }

  /** The stack is empty outside of all containers and only there. */
  predicate StackFits(state: State, stack: Stack) {
    && FramesOK(stack)
    && match state
       case Start | Finish => stack.Bottom?
       case Error | ObjectFinish | ArrayFinish | SingleValue => false
       case _ => stack.Push?
  }

  // ----- One transition -----

  datatype Step = Moved(c: Config) | Stuck(code: ErrorCode, events: seq<Event>)

  function MoveTo(o: Outcome, state: State, stack: Stack): Step {
    match o
    case Done(rest, es) => Moved(Config(state, stack, rest, es))
    case Failed(code, es) => Stuck(code, es)
  }

  /** The state to come back to when a value opened in `src` closes. */
  function BackState(src: State): State {
    if src == ArrayInitial || src == ElementDelimiter then Element
    else if src == KeyValueDelimiter then MemberValue
    else src
  }

  function Restored(back: State): State {
    if back == Start then Finish else back
  }

  /** HandleError: what the state says was missing. */
  function MissingAt(src: State): ErrorCode {
    match src
    case Start => DocumentEmpty
    case Finish => DocumentRootNotSingular
    case ObjectInitial | MemberDelimiter => ObjectMissName
    case MemberKey => ObjectMissColon
    case MemberValue => ObjectMissCommaOrCurlyBracket
    case KeyValueDelimiter | ArrayInitial | ElementDelimiter => ValueInvalid
    case _ => ArrayMissCommaOrSquareBracket
  }

  /** Drops the token ahead. Past the end there is none: Take on the terminating NUL. */
  function Take(ts: seq<Token>): seq<Token> {
    if ts == [] then [] else ts[1..]
  }

  /** Transit, followed by HandleError when it ends in the error state. */
  function Transit(fl: Flags, h: Handler, c: Config, dst: State): (r: Step)
    requires StackFits(c.state, c.stack)
    requires dst == Predict(c.state, Tokenize(c.rest))
    ensures r.Moved? ==> StackFits(r.c.state, r.c.stack) && c.rest != [] && r.c.rest == c.rest[1..]
    ensures r.Moved? && IsDelimiter(dst) ==> r.c.events == c.events
    ensures r.Moved? && !IsDelimiter(dst) ==> Reported(h, c.events, r.c.events)
    ensures r.Stuck? ==> c.events <= r.events
  {
    match dst
    case ObjectInitial =>
      MoveTo(Emit(h, Take(c.rest), c.events, StartObject), dst, Push(BackState(c.state), 0, c.stack))
    case ArrayInitial =>
      MoveTo(Emit(h, Take(c.rest), c.events, StartArray), dst, Push(BackState(c.state), 0, c.stack))
    case MemberKey =>
      MoveTo(ParseLeaf(h, c.rest, c.events, true), dst, c.stack)
    case KeyValueDelimiter =>
      Moved(Config(dst, c.stack, Take(c.rest), c.events))
    case MemberValue | Element =>
      MoveTo(ParseLeaf(h, c.rest, c.events, false), dst, c.stack)
    case MemberDelimiter | ElementDelimiter =>
      Moved(Config(dst, Push(c.stack.back, Inc(c.stack.count), c.stack.below), Take(c.rest), c.events))
    case ObjectFinish =>
      if !fl.trailingCommas && c.state == MemberDelimiter then Stuck(ObjectMissName, c.events) else
      var n := if c.state == MemberValue then Inc(c.stack.count) else c.stack.count;
      MoveTo(Emit(h, Take(c.rest), c.events, EndObject(n)), Restored(c.stack.back), c.stack.below)
    case ArrayFinish =>
      if !fl.trailingCommas && c.state == ElementDelimiter then Stuck(ValueInvalid, c.events) else
      var n := if c.state == Element then Inc(c.stack.count) else c.stack.count;
      MoveTo(Emit(h, Take(c.rest), c.events, EndArray(n)), Restored(c.stack.back), c.stack.below)
    case SingleValue =>
      MoveTo(ParseLeaf(h, c.rest, c.events, false), Finish, c.stack)
    case _ =>
      Stuck(MissingAt(c.state), c.events)
  }

  function Advance(fl: Flags, h: Handler, c: Config): (r: Step)
    requires StackFits(c.state, c.stack)
    ensures r.Moved? ==> StackFits(r.c.state, r.c.stack) && c.rest != [] && r.c.rest == c.rest[1..]
  {
    Transit(fl, h, c, Predict(c.state, Tokenize(c.rest)))
  }

  // ----- IterativeParse -----

  /** The loop of IterativeParse from its guard on, whitespace already skipped. */
  function Run(fl: Flags, h: Handler, c: Config): Outcome
    requires StackFits(c.state, c.stack)
    decreases |c.rest|, 0
  {
    if c.rest == [] then
      if c.state == Finish then Done([], c.events) else Failed(MissingAt(c.state), c.events)
    else
      match Advance(fl, h, c)
      case Stuck(code, es) => Failed(code, es)
      case Moved(d) => Resume(fl, h, d)
  }

  /** The loop from the point where a transition has succeeded. */
  function Resume(fl: Flags, h: Handler, c: Config): Outcome
    requires StackFits(c.state, c.stack)
    decreases |c.rest|, 1
  {
    if fl.stopWhenDone && c.state == Finish then Done(c.rest, c.events)
    else Run(fl, h, c.(rest := Skip(c.rest)))
  }

  /** What is left to do once the root value is complete. */
  function FinishRun(fl: Flags, c: Config): Outcome {
    if fl.stopWhenDone then Done(c.rest, c.events)
    else if Skip(c.rest) == [] then Done([], c.events)
    else Failed(DocumentRootNotSingular, c.events)
  }

  /** One turn of the automaton's loop, wherever it leads. */
  lemma {:induction false} Turn(fl: Flags, h: Handler, c: Config, d: Config)
    requires StackFits(c.state, c.stack) && c.rest != []
    requires Advance(fl, h, c) == Moved(d)
    ensures Run(fl, h, c) == Resume(fl, h, d)
    ensures d.state != Finish ==> Run(fl, h, c) == Run(fl, h, d.(rest := Skip(d.rest)))
    ensures d.state == Finish ==> Run(fl, h, c) == FinishRun(fl, d)
  {
    if d.state == Finish && !fl.stopWhenDone && Skip(d.rest) != [] {
      assert Advance(fl, h, d.(rest := Skip(d.rest))) == Stuck(DocumentRootNotSingular, d.events);
    }
  }

  function IterativeParse(fl: Flags, h: Handler, ts: seq<Token>): Outcome {
    Run(fl, h, Config(Start, Bottom, Skip(ts), []))
  }

  // ----- IterativeParseNext -----

  // One call ends with an event, with the document complete, or with an error.
  datatype Pulled =
    | Going(c: Config)
    | Complete(c: Config)
    | Broken(code: ErrorCode, events: seq<Event>)

  /** One call of IterativeParseNext. Unlike IterativeParse it tests for the end of input
      before it skips whitespace. */
  function IterativeParseNext(fl: Flags, h: Handler, c: Config): (p: Pulled)
    requires StackFits(c.state, c.stack)
    ensures p.Going? ==> StackFits(p.c.state, p.c.stack) && |p.c.rest| < |c.rest| && p.c.state != Finish
    ensures p.Going? ==> Reported(h, c.events, p.c.events)
    ensures p.Complete? && c.state != Finish ==> Reported(h, c.events, p.c.events)
    decreases |c.rest|
  {
    if c.rest == [] then
      if c.state == Finish then Complete(c) else Broken(MissingAt(c.state), c.events)
    else
      var c := c.(rest := Skip(c.rest));
      var dst := Predict(c.state, Tokenize(c.rest));
      match Transit(fl, h, c, dst)
      case Stuck(code, es) => Broken(code, es)
      case Moved(d) =>
        if d.state == Finish then
          if fl.stopWhenDone then Complete(d) else
          var d := d.(rest := Skip(d.rest));
          if d.rest == [] then Complete(d) else Broken(DocumentRootNotSingular, d.events)
        else if IsDelimiter(dst) then IterativeParseNext(fl, h, d)
        else Going(d)
  }

  /** IterativeParseInit, then IterativeParseNext until IterativeParseComplete or an error. */
  function PullAll(fl: Flags, h: Handler, c: Config): Outcome
    requires StackFits(c.state, c.stack)
    decreases |c.rest|
  {
    match IterativeParseNext(fl, h, c)
    case Broken(code, es) => Failed(code, es)
    case Complete(d) => Done(d.rest, d.events)
    case Going(d) => PullAll(fl, h, d)
  }
}
