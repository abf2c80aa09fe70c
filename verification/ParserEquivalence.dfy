/** The two parsers recognise the same language and emit the same events. */
module ParserEquivalence {
  import opened JsonSyntax
  import opened Descent
  import opened Pushdown

  /** The states in which the automaton expects a value. */
  predicate WantsValue(s: State) {
    s == Start || s == ArrayInitial || s == ElementDelimiter || s == KeyValueDelimiter
  }

  /** Where the automaton stands once that value has been read. */
  function AfterValue(s: State): State {
    Restored(BackState(s))
  }

  /** The first significant token is one with which no value can begin. */
  predicate BeginsNoValue(ts: seq<Token>) {
    ts != [] && (ts[0].RightBracket? || ts[0].RightBrace? || ts[0].Comma? || ts[0].Colon?)
  }

  /** From a state that wants a value, the automaton does to the text what ParseValue does to
      it and then goes on from the state after the value, over the same stack. */
  lemma {:induction false} SimulateValue(fl: Flags, h: Handler, src: State, stack: Stack, ts: seq<Token>, es: seq<Event>)
    requires WantsValue(src) && StackFits(src, stack)
    requires ts != [] ==> ts[0] != Space
    requires ts != [] && (src == ArrayInitial || src == ElementDelimiter) ==> !ts[0].RightBracket?
    requires src == Start ==> ts != [] && !BeginsNoValue(ts)
    ensures
      var run := Run(fl, h, Config(src, stack, ts, es));
      match ParseValue(fl, h, ts, es)
      case Done(rest, es') => run == Resume(fl, h, Config(AfterValue(src), stack, rest, es'))
      case Failed(code, es') => run == Failed(code, es')
    decreases |ts|, 1
  {
    var c := Config(src, stack, ts, es);
    if ts != [] && ts[0].LeftBrace? {
      SimulateObject(fl, h, src, stack, ts, es);
    } else if ts != [] && ts[0].LeftBracket? {
      SimulateArray(fl, h, src, stack, ts, es);
    } else if ts == [] || BeginsNoValue(ts) {
      assert ts != [] ==> Advance(fl, h, c) == Stuck(ValueInvalid, es);
    } else {
      assert Advance(fl, h, c) == MoveTo(ParseLeaf(h, ts, es, false), AfterValue(src), stack);
    }
  }

  lemma {:induction false} SimulateObject(fl: Flags, h: Handler, src: State, stack: Stack, ts: seq<Token>, es: seq<Event>)
    requires WantsValue(src) && StackFits(src, stack)
    requires ts != [] && ts[0].LeftBrace?
    ensures
      var run := Run(fl, h, Config(src, stack, ts, es));
      match ParseObject(fl, h, ts[1..], es)
      case Done(rest, es') => run == Resume(fl, h, Config(AfterValue(src), stack, rest, es'))
      case Failed(code, es') => run == Failed(code, es')
    decreases |ts|, 0
  {
    var c := Config(src, stack, ts, es);
    var start := Emit(h, ts[1..], es, StartObject);
    assert Advance(fl, h, c) == MoveTo(start, ObjectInitial, Push(BackState(src), 0, stack));
    if start.Done? {
      var d := Config(ObjectInitial, Push(BackState(src), 0, stack), ts[1..], start.events);
      Turn(fl, h, c, d);
      var rest := Skip(ts[1..]);
      if rest != [] && rest[0].RightBrace? {
        assert Advance(fl, h, d.(rest := rest)) ==
               MoveTo(Emit(h, rest[1..], start.events, EndObject(0)), AfterValue(src), stack);
      } else {
        SimulateMembers(fl, h, ObjectInitial, BackState(src), 0, stack, rest, start.events);
      }
    }
  }

  lemma {:induction false} SimulateArray(fl: Flags, h: Handler, src: State, stack: Stack, ts: seq<Token>, es: seq<Event>)
    requires WantsValue(src) && StackFits(src, stack)
    requires ts != [] && ts[0].LeftBracket?
    ensures
      var run := Run(fl, h, Config(src, stack, ts, es));
      match ParseArray(fl, h, ts[1..], es)
      case Done(rest, es') => run == Resume(fl, h, Config(AfterValue(src), stack, rest, es'))
      case Failed(code, es') => run == Failed(code, es')
    decreases |ts|, 0
  {
    var c := Config(src, stack, ts, es);
    var start := Emit(h, ts[1..], es, StartArray);
    assert Advance(fl, h, c) == MoveTo(start, ArrayInitial, Push(BackState(src), 0, stack));
    if start.Done? {
      var d := Config(ArrayInitial, Push(BackState(src), 0, stack), ts[1..], start.events);
      Turn(fl, h, c, d);
      var rest := Skip(ts[1..]);
      if rest != [] && rest[0].RightBracket? {
        assert Advance(fl, h, d.(rest := rest)) ==
               MoveTo(Emit(h, rest[1..], start.events, EndArray(0)), AfterValue(src), stack);
      } else {
        SimulateElements(fl, h, ArrayInitial, BackState(src), 0, stack, rest, start.events);
      }
    }
  }

  lemma {:induction false} SimulateMembers(fl: Flags, h: Handler, src: State, back: State, count: nat, below: Stack,
                                           ts: seq<Token>, es: seq<Event>)
    requires src == ObjectInitial || src == MemberDelimiter
    requires StackFits(src, Push(back, count, below))
    requires ts != [] ==> ts[0] != Space
    requires ts != [] && (src == ObjectInitial || fl.trailingCommas) ==> !ts[0].RightBrace?
    ensures
      var run := Run(fl, h, Config(src, Push(back, count, below), ts, es));
      match ParseMembers(fl, h, ts, es, count)
      case Done(rest, es') => run == Resume(fl, h, Config(Restored(back), below, rest, es'))
      case Failed(code, es') => run == Failed(code, es')
    decreases |ts|, 0
  {
    var stack := Push(back, count, below);
    var c := Config(src, stack, ts, es);
    if ts != [] && ts[0].Str? {
      var key := ParseLeaf(h, ts, es, true);
      assert Advance(fl, h, c) == MoveTo(key, MemberKey, stack);
      if key.Done? {
        Turn(fl, h, c, Config(MemberKey, stack, key.rest, key.events));
        SimulateMembersAfterName(fl, h, back, count, below, Skip(key.rest), key.events);
      }
    }
  }

  lemma {:induction false} SimulateMembersAfterName(fl: Flags, h: Handler, back: State, count: nat, below: Stack,
                                                    ts: seq<Token>, es: seq<Event>)
    requires StackFits(MemberKey, Push(back, count, below))
    requires ts != [] ==> ts[0] != Space
    ensures
      var run := Run(fl, h, Config(MemberKey, Push(back, count, below), ts, es));
      match MembersAfterName(fl, h, ts, es, count)
      case Done(rest, es') => run == Resume(fl, h, Config(Restored(back), below, rest, es'))
      case Failed(code, es') => run == Failed(code, es')
    decreases |ts|, 0
  {
    var stack := Push(back, count, below);
    if ts != [] && ts[0].Colon? {
      Turn(fl, h, Config(MemberKey, stack, ts, es), Config(KeyValueDelimiter, stack, ts[1..], es));
      var ts' := Skip(ts[1..]);
      SimulateValue(fl, h, KeyValueDelimiter, stack, ts', es);
      var v := ParseValue(fl, h, ts', es);
      if v.Done? {
        SimulateMembersAfterValue(fl, h, back, count, below, Skip(v.rest), v.events);
      }
    }
  }

  lemma {:induction false} SimulateMembersAfterValue(fl: Flags, h: Handler, back: State, count: nat, below: Stack,
                                                     ts: seq<Token>, es: seq<Event>)
    requires StackFits(MemberValue, Push(back, count, below))
    requires ts != [] ==> ts[0] != Space
    ensures
      var run := Run(fl, h, Config(MemberValue, Push(back, count, below), ts, es));
      match MembersAfterValue(fl, h, ts, es, Inc(count))
      case Done(rest, es') => run == Resume(fl, h, Config(Restored(back), below, rest, es'))
      case Failed(code, es') => run == Failed(code, es')
    decreases |ts|, 0
  {
    var c := Config(MemberValue, Push(back, count, below), ts, es);
    if ts != [] && ts[0].Comma? {
      var rest := Skip(ts[1..]);
      var d := Config(MemberDelimiter, Push(back, Inc(count), below), rest, es);
      Turn(fl, h, c, d.(rest := ts[1..]));
      if fl.trailingCommas && rest != [] && rest[0].RightBrace? {
        assert Advance(fl, h, d) == MoveTo(Emit(h, rest[1..], es, EndObject(Inc(count))), Restored(back), below);
      } else {
        SimulateMembers(fl, h, MemberDelimiter, back, Inc(count), below, rest, es);
      }
    } else if ts != [] && ts[0].RightBrace? {
      assert Advance(fl, h, c) == MoveTo(Emit(h, ts[1..], es, EndObject(Inc(count))), Restored(back), below);
    }
  }

  lemma {:induction false} SimulateElements(fl: Flags, h: Handler, src: State, back: State, count: nat, below: Stack,
                                            ts: seq<Token>, es: seq<Event>)
    requires src == ArrayInitial || src == ElementDelimiter
    requires StackFits(src, Push(back, count, below))
    requires ts != [] ==> ts[0] != Space
    requires ts != [] && (src == ArrayInitial || fl.trailingCommas) ==> !ts[0].RightBracket?
    ensures
      var run := Run(fl, h, Config(src, Push(back, count, below), ts, es));
      match ParseElements(fl, h, ts, es, count)
      case Done(rest, es') => run == Resume(fl, h, Config(Restored(back), below, rest, es'))
      case Failed(code, es') => run == Failed(code, es')
    decreases |ts|, 2
  {
    if ts != [] && ts[0].RightBracket? {
      // A trailing comma that is not allowed: both parsers refuse the bracket as a value.
    } else {
      SimulateValue(fl, h, src, Push(back, count, below), ts, es);
      var v := ParseValue(fl, h, ts, es);
      if v.Done? {
        SimulateElementsAfterValue(fl, h, back, count, below, Skip(v.rest), v.events);
      }
    }
  }

  lemma {:induction false} SimulateElementsAfterValue(fl: Flags, h: Handler, back: State, count: nat, below: Stack,
                                                      ts: seq<Token>, es: seq<Event>)
    requires StackFits(Element, Push(back, count, below))
    requires ts != [] ==> ts[0] != Space
    ensures
      var run := Run(fl, h, Config(Element, Push(back, count, below), ts, es));
      match ElementsAfterValue(fl, h, ts, es, Inc(count))
      case Done(rest, es') => run == Resume(fl, h, Config(Restored(back), below, rest, es'))
      case Failed(code, es') => run == Failed(code, es')
    decreases |ts|, 0
  {
    var c := Config(Element, Push(back, count, below), ts, es);
    if ts != [] && ts[0].Comma? {
      var rest := Skip(ts[1..]);
      var d := Config(ElementDelimiter, Push(back, Inc(count), below), rest, es);
      Turn(fl, h, c, d.(rest := ts[1..]));
      if fl.trailingCommas && rest != [] && rest[0].RightBracket? {
        assert Advance(fl, h, d) == MoveTo(Emit(h, rest[1..], es, EndArray(Inc(count))), Restored(back), below);
      } else {
        SimulateElements(fl, h, ElementDelimiter, back, Inc(count), below, rest, es);
      }
    } else if ts != [] && ts[0].RightBracket? {
      assert Advance(fl, h, c) == MoveTo(Emit(h, ts[1..], es, EndArray(Inc(count))), Restored(back), below);
    }
  }

  /** For every text, every flags and every handler: the automaton and the recursive-descent
      parser accept the same texts, leave the same text unread and give the handler the same
      events, on rejected texts too. Their error codes differ exactly when the text begins with
      a token that begins no value, which the automaton reports as an empty document. */
  lemma {:induction false} ParsersAgree(fl: Flags, h: Handler, ts: seq<Token>)
    ensures
      var automaton, descent := IterativeParse(fl, h, ts), Parse(fl, h, ts);
      if BeginsNoValue(Skip(ts)) then
        automaton == Failed(DocumentEmpty, []) && descent == Failed(ValueInvalid, [])
      else
        automaton == descent
  {
    var ts' := Skip(ts);
    if ts' != [] && !BeginsNoValue(ts') {
      SimulateValue(fl, h, Start, Bottom, ts', []);
      var v := ParseValue(fl, h, ts', []);
      if v.Done? {
        var rest := Skip(v.rest);
        if rest != [] {
          assert Advance(fl, h, Config(Finish, Bottom, rest, v.events)).Stuck?;
        }
      }
    }
  }
}
