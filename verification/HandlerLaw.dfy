/** A handler's answers only ever cut a parse short: up to the first event it refuses, the parse is the one
    under a handler that never stops. */
module HandlerLaw {
  import opened JsonSyntax
  import opened Pushdown
  import Descent
  import ParserEquivalence

  const WILLING: Handler := _ => true

  /** The handler goes on at every event after the first ones. */
  ghost predicate GoesOn(h: Handler, from: nat, es: seq<Event>) {
    forall n: nat | from < n <= |es| :: h(es[..n])
  }

  /** A parse is cut at the first event that is refused, if one is. */
  ghost predicate CutFrom(h: Handler, from: nat, o: Outcome, whole: Outcome) {
    if GoesOn(h, from, whole.events) then o == whole
    else
      && o.Failed? && o.code == Termination
      && from < |o.events| && o.events <= whole.events
      && !h(o.events) && GoesOn(h, from, o.events[..|o.events| - 1])
  }

  lemma {:induction false} RunExtends(fl: Flags, h: Handler, c: Config)
    requires StackFits(c.state, c.stack)
    ensures c.events <= Run(fl, h, c).events
    decreases |c.rest|
  {
    if c.rest != [] {
      match Advance(fl, h, c)
      case Stuck(_, _) =>
      case Moved(d) =>
        var e := d.(rest := Skip(d.rest));
        RunExtends(fl, h, e);
        assert c.events <= d.events;
    }
  }

  /** One step is the other, unless the event it reports is refused. */
  predicate SameBut(h: Handler, before: seq<Event>, step: Step, willing: Step) {
    match willing
    case Stuck(code, es) => step == willing && es == before
    case Moved(d) =>
      if d.events == before then step == willing
      else
        && |d.events| == |before| + 1 && before <= d.events
        && step == if h(d.events) then willing else Stuck(Termination, d.events)
  }

  lemma {:induction false} EmitSame(h: Handler, rest: seq<Token>, es: seq<Event>, e: Event, state: State, stack: Stack)
    ensures SameBut(h, es, MoveTo(Emit(h, rest, es, e), state, stack), MoveTo(Emit(WILLING, rest, es, e), state, stack))
  {}

  lemma {:induction false} LeafSame(h: Handler, ts: seq<Token>, es: seq<Event>, isKey: bool, state: State, stack: Stack)
    ensures SameBut(h, es, MoveTo(ParseLeaf(h, ts, es, isKey), state, stack),
                    MoveTo(ParseLeaf(WILLING, ts, es, isKey), state, stack))
  {}

  lemma {:induction false} StepSame(fl: Flags, h: Handler, c: Config, dst: State)
    requires StackFits(c.state, c.stack) && dst == Predict(c.state, Tokenize(c.rest))
    ensures SameBut(h, c.events, Transit(fl, h, c, dst), Transit(fl, WILLING, c, dst))
  {
    match dst {
      case ObjectInitial =>
        EmitSame(h, Take(c.rest), c.events, StartObject, dst, Push(BackState(c.state), 0, c.stack));
      case ArrayInitial =>
        EmitSame(h, Take(c.rest), c.events, StartArray, dst, Push(BackState(c.state), 0, c.stack));
      case MemberKey =>
        LeafSame(h, c.rest, c.events, true, dst, c.stack);
      case MemberValue | Element =>
        LeafSame(h, c.rest, c.events, false, dst, c.stack);
      case ObjectFinish =>
        EmitSame(h, Take(c.rest), c.events, EndObject(if c.state == MemberValue then Inc(c.stack.count) else c.stack.count),
            Restored(c.stack.back), c.stack.below);
      case ArrayFinish =>
        EmitSame(h, Take(c.rest), c.events, EndArray(if c.state == Element then Inc(c.stack.count) else c.stack.count),
            Restored(c.stack.back), c.stack.below);
      case SingleValue =>
        LeafSame(h, c.rest, c.events, false, Finish, c.stack);
      case _ =>
    }
  }

  // ----- Runs -----

  lemma {:induction false} RunIsCut(fl: Flags, h: Handler, c: Config)
    requires StackFits(c.state, c.stack)
    ensures CutFrom(h, |c.events|, Run(fl, h, c), Run(fl, WILLING, c))
    decreases |c.rest|
  {
    RunExtends(fl, WILLING, c);
    if c.rest != [] {
      StepSame(fl, h, c, Predict(c.state, Tokenize(c.rest)));
      match Advance(fl, WILLING, c)
      case Stuck(_, _) =>
      case Moved(d) =>
        var e := d.(rest := Skip(d.rest));
        RunExtends(fl, WILLING, e);
        if d.events == c.events || h(d.events) {
          RunIsCut(fl, h, e);
          OneAccepted(h, c.events, d.events, Run(fl, h, e), Run(fl, WILLING, e));
        } else {
          OneRefused(h, c.events, d.events, Run(fl, WILLING, e));
        }
    }
  }

  lemma {:induction false} OneAccepted(h: Handler, before: seq<Event>, after: seq<Event>, o: Outcome, whole: Outcome)
    requires after == before || (|after| == |before| + 1 && h(after))
    requires after <= whole.events && CutFrom(h, |after|, o, whole)
    ensures CutFrom(h, |before|, o, whole)
  {
    if after != before {
      assert whole.events[..|after|] == after;
      if !GoesOn(h, |after|, whole.events) {
        assert o.events[..|o.events| - 1][..|after|] == after;
      }
    }
  }

  lemma {:induction false} OneRefused(h: Handler, before: seq<Event>, after: seq<Event>, whole: Outcome)
    requires |after| == |before| + 1 && !h(after) && after <= whole.events
    ensures CutFrom(h, |before|, Failed(Termination, after), whole)
  {
    assert whole.events[..|after|] == after;
  }

  /** For every text and flags, both parsers do under any handler what they do under one that never stops, up to
      the first event that is refused; and that ends the parse. */
  lemma {:induction false} ParseIsCut(fl: Flags, h: Handler, ts: seq<Token>)
    ensures CutFrom(h, 0, IterativeParse(fl, h, ts), IterativeParse(fl, WILLING, ts))
    ensures CutFrom(h, 0, Descent.Parse(fl, h, ts), Descent.Parse(fl, WILLING, ts))
  {
    RunIsCut(fl, h, Config(Start, Bottom, Skip(ts), []));
    ParserEquivalence.ParsersAgree(fl, h, ts);
    ParserEquivalence.ParsersAgree(fl, WILLING, ts);
  }
}
