/** GenericReader as the source writes it: methods that consume a stream, push and pop a stack
    and record an error, each proved to do what the parser functions say. */
module Reader {
  import opened Basics
  import opened JsonSyntax
  import opened Pushdown
  import Descent

  class GenericReader {
    const flags: Flags
    const handler: Handler
    var input: seq<Token>
    var events: seq<Event>
    var stack: Stack
    var state: State
    var parseError: Option<ErrorCode>

    constructor (flags: Flags, handler: Handler, input: seq<Token>)
      ensures this.flags == flags && this.handler == handler && this.input == input
      ensures events == [] && stack == Bottom && state == Start && parseError == None
    {
      this.flags, this.handler, this.input := flags, handler, input;
      events, stack, state, parseError := [], Bottom, Start, None;
    }

    /** What the parse has left so far. */
    function Left(): Outcome
      reads this
    {
      if parseError.None? then Done(input, events) else Failed(parseError.value, events)
    }

    function Here(s: State): Config
      reads this
    {
      Config(s, stack, input, events)
    }

    // ----- The stream and the handler -----

    method SkipWhitespace()
      modifies this`input
      ensures input == Skip(old(input))
    {
      while input != [] && input[0].Space?
        invariant Skip(input) == Skip(old(input))
        decreases |input|
      {
        input := input[1..];
      }
    }

    method Send(e: Event) returns (goOn: bool)
      modifies this`events
      ensures events == old(events) + [e] && goOn == handler(events)
    {
      events := events + [e];
      goOn := handler(events);
    }

    /** Gives an event to the handler and stops the parse if it refuses. */
    method Report(e: Event)
      requires parseError == None
      modifies this`events, this`parseError
      ensures Left() == Emit(handler, input, old(events), e)
    {
      var goOn := Send(e);
      if !goOn {
        parseError := Some(Termination);
      }
    }

    /** ParseString, ParseNull, ParseTrue, ParseFalse and ParseNumber. */
    method ParseScalar(isKey: bool)
      requires parseError == None
      modifies this`input, this`events, this`parseError
      ensures Left() == ParseLeaf(handler, old(input), old(events), isKey)
    {
      if input == [] {
        parseError := Some(ValueInvalid);
        return;
      }
      var t := input[0];
      match t {
        case Str(Good(text)) =>
          input := input[1..];
          Report(if isKey then Key(text) else String(text));
        case Str(Bad(code)) =>
          parseError := Some(code);
        case FalseLit(true) =>
          input := input[1..];
          Report(Value(Bool(false)));
        case TrueLit(true) =>
          input := input[1..];
          Report(Value(Bool(true)));
        case NullLit(true) =>
          input := input[1..];
          Report(Value(Null));
        case NumberLit(Good(n)) =>
          input := input[1..];
          Report(Value(Num(n)));
        case NumberLit(Bad(code)) =>
          parseError := Some(code);
        case _ =>
          parseError := Some(ValueInvalid);
      }
    }

    // ----- Recursive descent -----

    method ParseValue()
      requires parseError == None
      modifies this`input, this`events, this`parseError
      ensures Left() == Descent.ParseValue(flags, handler, old(input), old(events))
      decreases |input|, 1
    {
      if input != [] && input[0].LeftBrace? {
        ParseObject();
      } else if input != [] && input[0].LeftBracket? {
        ParseArray();
      } else {
        ParseScalar(false);
      }
    }

    method ParseObject()
      requires parseError == None && input != [] && input[0].LeftBrace?
      modifies this`input, this`events, this`parseError
      ensures Left() == Descent.ParseObject(flags, handler, old(input)[1..], old(events))
      decreases |input|, 0
    {
      ghost var whole := Descent.ParseObject(flags, handler, input[1..], events);
      input := input[1..];
      Report(StartObject);
      if parseError.Some? { return; }
      SkipWhitespace();
      if input != [] && input[0].RightBrace? {
        input := input[1..];
        Report(EndObject(0));
        return;
      }
      var memberCount := 0;
      while true
        invariant parseError == None && |input| < |old(input)|
        invariant Descent.ParseMembers(flags, handler, input, events, memberCount) == whole
        decreases |input|
      {
        if input == [] || !input[0].Str? {
          parseError := Some(ObjectMissName);
          return;
        }
        ParseScalar(true);
        if parseError.Some? { return; }
        SkipWhitespace();
        assert Descent.MembersAfterName(flags, handler, input, events, memberCount) == whole;
        if input == [] || !input[0].Colon? {
          parseError := Some(ObjectMissColon);
          return;
        }
        input := input[1..];
        SkipWhitespace();
        ParseValue();
        if parseError.Some? { return; }
        SkipWhitespace();
        memberCount := Inc(memberCount);
        assert Descent.MembersAfterValue(flags, handler, input, events, memberCount) == whole;
        if input != [] && input[0].Comma? {
          input := input[1..];
          SkipWhitespace();
        } else if input != [] && input[0].RightBrace? {
          input := input[1..];
          Report(EndObject(memberCount));
          return;
        } else {
          parseError := Some(ObjectMissCommaOrCurlyBracket);
          return;
        }
        if flags.trailingCommas && input != [] && input[0].RightBrace? {
          Report(EndObject(memberCount));
          input := input[1..];
          return;
        }
      }
    }

    method ParseArray()
      requires parseError == None && input != [] && input[0].LeftBracket?
      modifies this`input, this`events, this`parseError
      ensures Left() == Descent.ParseArray(flags, handler, old(input)[1..], old(events))
      decreases |input|, 0
    {
      ghost var whole := Descent.ParseArray(flags, handler, input[1..], events);
      input := input[1..];
      Report(StartArray);
      if parseError.Some? { return; }
      SkipWhitespace();
      if input != [] && input[0].RightBracket? {
        input := input[1..];
        Report(EndArray(0));
        return;
      }
      var elementCount := 0;
      while true
        invariant parseError == None && |input| < |old(input)|
        invariant Descent.ParseElements(flags, handler, input, events, elementCount) == whole
        decreases |input|
      {
        ParseValue();
        if parseError.Some? { return; }
        elementCount := Inc(elementCount);
        SkipWhitespace();
        if input != [] && input[0].Comma? {
          input := input[1..];
          SkipWhitespace();
        } else if input != [] && input[0].RightBracket? {
          input := input[1..];
          Report(EndArray(elementCount));
          return;
        } else {
          parseError := Some(ArrayMissCommaOrSquareBracket);
          return;
        }
        if flags.trailingCommas && input != [] && input[0].RightBracket? {
          Report(EndArray(elementCount));
          input := input[1..];
          return;
        }
      }
    }

    method Parse()
      requires parseError == None && events == []
      modifies this
      ensures Left() == Descent.Parse(flags, handler, old(input))
    {
      SkipWhitespace();
      if input == [] {
        parseError := Some(DocumentEmpty);
        return;
      }
      ParseValue();
      if parseError.Some? { return; }
      if !flags.stopWhenDone {
        SkipWhitespace();
        if input != [] {
          parseError := Some(DocumentRootNotSingular);
        }
      }
    }

    // ----- The automaton -----

    method HandleError(src: State)
      modifies this`parseError
      ensures parseError == if old(parseError).Some? then old(parseError) else Some(MissingAt(src))
    {
      if parseError.Some? { return; }
      parseError := Some(MissingAt(src));
    }

    /** The transition from src to the predicted dst. An error is left to HandleError unless the
        transition itself reports one. */
    method Transit(src: State, dst: State) returns (d: State)
      requires parseError == None && StackFits(src, stack)
      requires dst == Predict(src, Tokenize(input))
      modifies this`input, this`events, this`stack, this`parseError
      ensures match Pushdown.Transit(flags, handler, old(Here(src)), dst)
              case Moved(c) => parseError == None && d == c.state && Here(d) == c
              case Stuck(code, es) =>
                && d == Error && events == es
                && (parseError == Some(code) || (parseError == None && code == MissingAt(src)))
    {
      d := dst;
      match dst {
        case ObjectInitial | ArrayInitial =>
          d := EnterContainer(src, dst);
        case MemberKey =>
          ParseScalar(true);
          if parseError.Some? { return Error; }
        case KeyValueDelimiter =>
          input := input[1..];
        case MemberValue | Element =>
          ParseScalar(false);
          if parseError.Some? { return Error; }
        case MemberDelimiter | ElementDelimiter =>
          input := input[1..];
          stack := stack.(count := Inc(stack.count));
        case ObjectFinish | ArrayFinish =>
          if !flags.trailingCommas && (src == MemberDelimiter || src == ElementDelimiter) {
            parseError := Some(if dst == ObjectFinish then ObjectMissName else ValueInvalid);
            return Error;
          }
          d := LeaveContainer(src, dst);
        case SingleValue =>
          ParseScalar(false);
          if parseError.Some? { return Error; }
          return Finish;
        case _ =>
          return Error;
      }
    }

    /** Transit for a container that may open here. */
    method EnterContainer(src: State, dst: State) returns (d: State)
      requires parseError == None && input != []
      requires dst == ObjectInitial || dst == ArrayInitial
      modifies this`input, this`events, this`stack, this`parseError
      ensures
        var e := if dst == ObjectInitial then StartObject else StartArray;
        match MoveTo(Emit(handler, old(input)[1..], old(events), e), dst, Push(BackState(src), 0, old(stack)))
        case Moved(c) => parseError == None && d == c.state && Here(d) == c
        case Stuck(code, es) => d == Error && events == es && parseError == Some(code)
    {
      var n := src;
      if src == ArrayInitial || src == ElementDelimiter {
        n := Element;
      } else if src == KeyValueDelimiter {
        n := MemberValue;
      }
      stack := Push(n, 0, stack);
      Report(if dst == ObjectInitial then StartObject else StartArray);
      if parseError.Some? { return Error; }
      input := input[1..];
      return dst;
    }

    /** The end of Transit for a container that may close here. */
    method LeaveContainer(src: State, dst: State) returns (d: State)
      requires parseError == None && StackFits(src, stack)
      requires dst == Predict(src, Tokenize(input)) && (dst == ObjectFinish || dst == ArrayFinish)
      modifies this`input, this`events, this`stack, this`parseError
      ensures
        var n := if src == MemberValue || src == Element then Inc(old(stack).count) else old(stack).count;
        var e := if dst == ObjectFinish then EndObject(n) else EndArray(n);
        match MoveTo(Emit(handler, old(input)[1..], old(events), e), Restored(old(stack).back), old(stack).below)
        case Moved(c) => parseError == None && d == c.state && Here(d) == c
        case Stuck(code, es) => d == Error && events == es && parseError == Some(code)
    {
      var c := stack.count;
      if src == MemberValue || src == Element {
        c := Inc(c);
      }
      var n := stack.back;
      stack := stack.below;
      if n == Start {
        n := Finish;
      }
      Report(if dst == ObjectFinish then EndObject(c) else EndArray(c));
      if parseError.Some? { return Error; }
      input := input[1..];
      return n;
    }

    method IterativeParse()
      requires parseError == None && events == [] && stack == Bottom
      modifies this
      ensures Left() == Pushdown.IterativeParse(flags, handler, old(input))
    {
      var state := Start;
      SkipWhitespace();
      ghost var whole := Run(flags, handler, Here(state));
      while input != []
        invariant parseError == None && StackFits(state, stack)
        invariant Run(flags, handler, Here(state)) == whole
        invariant flags.stopWhenDone ==> state != Finish
        decreases |input|
      {
        ghost var c := Here(state);
        var n := Predict(state, Tokenize(input));
        var d := Transit(state, n);
        if d == Error {
          HandleError(state);
          break;
        }
        state := d;
        if flags.stopWhenDone && state == Finish {
          assert whole == Resume(flags, handler, Here(d));
          return;
        }
        SkipWhitespace();
      }
      if state != Finish {
        HandleError(state);
      }
    }

    /** One event per call, from the state the last call left. */
    method IterativeParseNext() returns (ok: bool)
      requires parseError == None && StackFits(state, stack)
      modifies this
      ensures match Pushdown.IterativeParseNext(flags, handler, old(Here(state)))
              case Going(c) => ok && parseError == None && Here(state) == c
              case Complete(c) => ok && parseError == None && state == Finish && input == c.rest && events == c.events
              case Broken(code, es) => !ok && parseError == Some(code) && events == es
    {
      ghost var call := Pushdown.IterativeParseNext(flags, handler, Here(state));
      while input != []
        invariant parseError == None && StackFits(state, stack)
        invariant Pushdown.IterativeParseNext(flags, handler, Here(state)) == call
        decreases |input|
      {
        SkipWhitespace();
        var n := Predict(state, Tokenize(input));
        var d := Transit(state, n);
        if d == Finish || d == Error {
          if d == Error {
            HandleError(state);
            return false;
          }
          state := d;
          if !flags.stopWhenDone {
            SkipWhitespace();
            if input != [] {
              HandleError(state);
              return false;
            }
          }
          return true;
        }
        state := d;
        if !IsDelimiter(n) {
          return true;
        }
      }
      stack := Bottom;
      if state != Finish {
        HandleError(state);
        return false;
      }
      return true;
    }
  }
}
