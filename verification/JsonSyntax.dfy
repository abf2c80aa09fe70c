/** The vocabulary shared by the two JSON parsers, the DOM builder and the printer:
    tokens, events, error codes and value trees. */
module JsonSyntax {

  import opened Basics

  // ----- Outcomes of the leaf parsers (strings and numbers), and error codes -----

  datatype ErrorCode =
    | DocumentEmpty
    | DocumentRootNotSingular
    | ValueInvalid
    | ObjectMissName
    | ObjectMissColon
    | ObjectMissCommaOrCurlyBracket
    | ArrayMissCommaOrSquareBracket
    | StringUnicodeEscapeInvalidHex
    | StringUnicodeSurrogateInvalid
    | StringEscapeInvalid
    | StringMissQuotationMark
    | StringInvalidEncoding
    | NumberTooBig
    | NumberMissFraction
    | NumberMissExponent
    | Termination

  datatype Leaf<+T> = Good(value: T) | Bad(code: ErrorCode)

  /** What a signed or an unsigned 64-bit integer holds. */
  type WholeNumber = i: int | -0x8000_0000_0000_0000 <= i < 0x1_0000_0000_0000_0000

  // An event carries the number and not which of the handler's methods announces it: a reader
  // announces 5 as unsigned and a document as signed, and both mean the same (module Numbers).
  datatype Number = Integer(i: WholeNumber) | Double(d: real)

  datatype Scalar = Null | Bool(b: bool) | Num(n: Number)

  // ----- Tokens: what the structural parsers see of the text -----

  // A string, literal or number token carries what its leaf parser will make of it: a value,
  // or the error at which parsing stops. Space stands for one whitespace character.
  datatype Token =
    | Space
    | LeftBracket
    | RightBracket
    | LeftBrace
    | RightBrace
    | Comma
    | Colon
    | Str(text: Leaf<Bytes>)
    | FalseLit(spelled: bool)
    | TrueLit(spelled: bool)
    | NullLit(spelled: bool)
    | NumberLit(num: Leaf<Number>)

  /** SkipWhitespace. */
  function Skip(ts: seq<Token>): (rest: seq<Token>)
    ensures |rest| <= |ts|
    ensures rest != [] ==> rest[0] != Space
  {
    if ts != [] && ts[0].Space? then Skip(ts[1..]) else ts
  }

  /** The text with every whitespace token removed. */
  function Strip(ts: seq<Token>): (r: seq<Token>)
  {
    if ts == [] then [] else (if ts[0].Space? then [] else [ts[0]]) + Strip(ts[1..])
  }

  lemma {:induction false} StripSkip(ts: seq<Token>)
    ensures Strip(Skip(ts)) == Strip(ts)
  {
    if ts != [] && ts[0].Space? {
      StripSkip(ts[1..]);
    }
  }

  lemma {:induction false} StripAppend(a: seq<Token>, b: seq<Token>)
    ensures Strip(a + b) == Strip(a) + Strip(b)
  {
    if a == [] {
      assert a + b == b;
    } else {
      assert (a + b)[1..] == a[1..] + b;
      StripAppend(a[1..], b);
    }
  }

  // ----- Events and handlers -----

  datatype Event =
    | Value(s: Scalar)
    | String(text: Bytes)
    | Key(name: Bytes)
    | StartObject
    | EndObject(memberCount: nat)
    | StartArray
    | EndArray(elementCount: nat)

  /** A handler answers each event with whether to go on. It may keep state of its own, so
      its answer is a function of every event it has been given, the newest last. */
  type Handler = seq<Event> -> bool

  ghost predicate NeverStops(h: Handler) {
    forall es :: h(es)
  }

  datatype Flags = Flags(trailingCommas: bool, stopWhenDone: bool)

  function Inc(count: nat): nat {
    (count + 1) % SIZE_TYPE
  }

  // ----- What a parse leaves behind -----

  datatype Outcome =
    | Done(rest: seq<Token>, events: seq<Event>)
    | Failed(code: ErrorCode, events: seq<Event>)
  {
    predicate IsFailure() {
      Failed?
    }

    function PropagateFailure(): Outcome
      requires Failed?
    {
      this
    }

    function Extract(): (seq<Token>, seq<Event>)
      requires Done?
    {
      (rest, events)
    }
  }

  /** Gives one event to the handler; a refusal ends the parse. */
  function Emit(h: Handler, rest: seq<Token>, es: seq<Event>, e: Event): (o: Outcome)
    ensures o.events == es + [e]
    ensures o.Done? ==> o.rest == rest && h(es + [e])
  {
    if h(es + [e]) then Done(rest, es + [e]) else Failed(Termination, es + [e])
  }

  function Literal(h: Handler, rest: seq<Token>, es: seq<Event>, spelled: bool, s: Scalar): Outcome {
    if spelled then Emit(h, rest, es, Value(s)) else Failed(ValueInvalid, es)
  }

  /** One more event has been given to the handler, which accepted it. */
  predicate Reported(h: Handler, before: seq<Event>, after: seq<Event>) {
    |after| == |before| + 1 && before <= after && h(after)
  }

  /** ParseString, ParseFalse, ParseTrue, ParseNull and ParseNumber on the token ahead. What is
      none of the others is given to ParseNumber, which refuses punctuation and the end of input. */
  function ParseLeaf(h: Handler, ts: seq<Token>, es: seq<Event>, isKey: bool): (o: Outcome)
    ensures o.Done? ==> ts != [] && o.rest == ts[1..] && Reported(h, es, o.events)
    ensures es <= o.events
  {
    if ts == [] then Failed(ValueInvalid, es) else
    match ts[0]
    case Str(Good(text)) => Emit(h, ts[1..], es, if isKey then Key(text) else String(text))
    case Str(Bad(code)) => Failed(code, es)
    case FalseLit(spelled) => Literal(h, ts[1..], es, spelled, Bool(false))
    case TrueLit(spelled) => Literal(h, ts[1..], es, spelled, Bool(true))
    case NullLit(spelled) => Literal(h, ts[1..], es, spelled, Null)
    case NumberLit(Good(n)) => Emit(h, ts[1..], es, Value(Num(n)))
    case NumberLit(Bad(code)) => Failed(code, es)
    case _ => Failed(ValueInvalid, es)
  }
}
