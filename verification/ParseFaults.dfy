/** Where a text goes wrong: a parse fails at the first place that cannot be gone on from, and its code
    says what should have stood there. */
module ParseFaults {
  import opened Basics
  import opened JsonSyntax
  import opened Pushdown
  import Descent
  import ParserEquivalence

  // ----- What stands behind a place, whitespace apart -----

  function Last(q: seq<Token>): Token
    requires q != []
  {
    q[|q| - 1]
  }

  /** The brackets that tokens leave open, the innermost last. */
  function Opened(q: seq<Token>): seq<Token>
    decreases |q|
  {
    if q == [] then []
    else
      var before := Opened(q[..|q| - 1]);
      match Last(q)
      case LeftBracket | LeftBrace => before + [Last(q)]
      case RightBracket | RightBrace => if before == [] then [] else before[..|before| - 1]
      case _ => before
  }

  predicate InArray(q: seq<Token>) {
    Opened(q) != [] && Last(Opened(q)).LeftBracket?
  }

  predicate InObject(q: seq<Token>) {
    Opened(q) != [] && Last(Opened(q)).LeftBrace?
  }

  predicate NameDue(q: seq<Token>) {
    InObject(q) && (Last(q).LeftBrace? || Last(q).Comma?)
  }

  predicate ColonDue(q: seq<Token>) {
    InObject(q) && |q| >= 2 && Last(q).Str? && (q[|q| - 2].LeftBrace? || q[|q| - 2].Comma?)
  }

  predicate ValueDue(q: seq<Token>) {
    q == [] || (InObject(q) && Last(q).Colon?) || (InArray(q) && (Last(q).LeftBracket? || Last(q).Comma?))
  }

  predicate ValueBehind(q: seq<Token>) {
    q != [] && !NameDue(q) && !ColonDue(q) && !ValueDue(q)
  }

  // ----- What cannot stand at a place -----

  predicate BeginsValue(rest: seq<Token>) {
    rest != [] && !rest[0].RightBracket? && !rest[0].RightBrace? && !rest[0].Comma? && !rest[0].Colon?
  }

  predicate Misspelled(t: Token) {
    t == FalseLit(false) || t == TrueLit(false) || t == NullLit(false)
  }

  /** A closing bracket may come instead of a further name or value: in an empty container, and behind a
      comma where trailing commas are enabled. */
  predicate MayClose(fl: Flags, q: seq<Token>) {
    q != [] && (Last(q).LeftBracket? || Last(q).LeftBrace? || (Last(q).Comma? && fl.trailingCommas))
  }

  /** Behind q stands what cannot be gone on from, and the code that says so. */
  predicate Fault(fl: Flags, q: seq<Token>, rest: seq<Token>, code: ErrorCode) {
    || ((ValueDue(q) || NameDue(q)) && rest != [] && rest[0] == Str(Bad(code)))
    || (ValueDue(q) && rest != [] && rest[0] == NumberLit(Bad(code)))
    || match code
       case DocumentEmpty => q == [] && !BeginsValue(rest)
       case DocumentRootNotSingular => q != [] && Opened(q) == [] && rest != [] && !fl.stopWhenDone
       case ValueInvalid =>
         ValueDue(q) &&
         (if BeginsValue(rest) then Misspelled(rest[0])
          else q != [] && !(rest != [] && rest[0].RightBracket? && InArray(q) && MayClose(fl, q)))
       case ObjectMissName =>
         NameDue(q) && !(rest != [] && (rest[0].Str? || (rest[0].RightBrace? && MayClose(fl, q))))
       case ObjectMissColon => ColonDue(q) && !(rest != [] && rest[0].Colon?)
       case ObjectMissCommaOrCurlyBracket =>
         InObject(q) && ValueBehind(q) && !(rest != [] && (rest[0].Comma? || rest[0].RightBrace?))
       case ArrayMissCommaOrSquareBracket =>
         InArray(q) && ValueBehind(q) && !(rest != [] && (rest[0].Comma? || rest[0].RightBracket?))
       case _ => false
  }

  // ----- The automaton knows what stands behind it -----

  function Bracket(back: State): Token {
    if back == MemberValue then LeftBrace else LeftBracket
  }

  /** The brackets of a stack, under the innermost one. */
  function Brackets(stack: Stack, inner: Token): seq<Token> {
    match stack
    case Bottom => []
    case Push(back, _, below) => Brackets(below, Bracket(back)) + [inner]
  }

  predicate IsObjectState(state: State) {
    state == ObjectInitial || state == MemberKey || state == MemberValue || state == MemberDelimiter
    || state == KeyValueDelimiter
  }

  function Inner(state: State): Token {
    if IsObjectState(state) then LeftBrace else LeftBracket
  }

  /** The tokens behind a state. */
  predicate Behind(state: State, q: seq<Token>) {
    match state
    case Start => q == []
    case Finish => ValueBehind(q)
    case ObjectInitial => q != [] && Last(q).LeftBrace?
    case MemberKey => ColonDue(q)
    case KeyValueDelimiter => q != [] && Last(q).Colon?
    case MemberDelimiter | ElementDelimiter => q != [] && Last(q).Comma?
    case ArrayInitial => q != [] && Last(q).LeftBracket?
    case MemberValue | Element => ValueBehind(q)
    case _ => false
  }

  predicate Knows(c: Config, q: seq<Token>) {
    && StackFits(c.state, c.stack)
    && Opened(q) == Brackets(c.stack, Inner(c.state))
    && Behind(c.state, q)
  }

  lemma {:induction false} InnerOpened(c: Config, q: seq<Token>)
    requires Knows(c, q)
    ensures c.stack.Bottom? <==> Opened(q) == []
    ensures c.stack.Push? ==> Last(Opened(q)) == Inner(c.state)
  {}

  lemma {:induction false} OneMore(q: seq<Token>, t: Token)
    ensures (q + [t])[..|q|] == q && Last(q + [t]) == t && q + [t] != []
    ensures q != [] ==> (q + [t])[|q + [t]| - 2] == Last(q)
  {}

  lemma {:induction false} OpenedMore(q: seq<Token>, t: Token)
    ensures t.LeftBracket? || t.LeftBrace? ==> Opened(q + [t]) == Opened(q) + [t]
    ensures (t.RightBracket? || t.RightBrace?) && Opened(q) != [] ==> Opened(q + [t]) == Opened(q)[..|Opened(q)| - 1]
    ensures !t.LeftBracket? && !t.LeftBrace? && !t.RightBracket? && !t.RightBrace? ==> Opened(q + [t]) == Opened(q)
  {
    OneMore(q, t);
  }

  // ----- One transition -----

  lemma {:induction false} OpenMoves(fl: Flags, h: Handler, c: Config, d: Config, q: seq<Token>, t: Token)
    requires Knows(c, q) && c.rest != [] && t == c.rest[0] && Advance(fl, h, c) == Moved(d)
    requires t.LeftBracket? || t.LeftBrace?
    ensures Knows(d, q + [t])
  {
    OneMore(q, t);
    OpenedMore(q, t);
    InnerOpened(c, q);
  }

  lemma {:induction false} CloseMoves(fl: Flags, h: Handler, c: Config, d: Config, q: seq<Token>, t: Token)
    requires Knows(c, q) && c.rest != [] && t == c.rest[0] && Advance(fl, h, c) == Moved(d)
    requires t.RightBracket? || t.RightBrace?
    ensures Knows(d, q + [t])
  {
    OneMore(q, t);
    OpenedMore(q, t);
    InnerOpened(c, q);
  }

  lemma {:induction false} DelimiterMoves(fl: Flags, h: Handler, c: Config, d: Config, q: seq<Token>, t: Token)
    requires Knows(c, q) && c.rest != [] && t == c.rest[0] && Advance(fl, h, c) == Moved(d)
    requires t.Comma? || t.Colon?
    ensures Knows(d, q + [t])
  {
    OneMore(q, t);
    OpenedMore(q, t);
    InnerOpened(c, q);
  }

  lemma {:induction false} LeafMoves(fl: Flags, h: Handler, c: Config, d: Config, q: seq<Token>, t: Token)
    requires Knows(c, q) && c.rest != [] && t == c.rest[0] && t != Space && Advance(fl, h, c) == Moved(d)
    requires BeginsValue([t]) && !t.LeftBracket? && !t.LeftBrace?
    ensures Knows(d, q + [t])
  {
    OneMore(q, t);
    OpenedMore(q, t);
    InnerOpened(c, q);
  }

  lemma {:induction false} MovedKnows(fl: Flags, h: Handler, c: Config, d: Config, q: seq<Token>, t: Token)
    requires Knows(c, q) && c.rest != [] && t == c.rest[0] && t != Space && Advance(fl, h, c) == Moved(d)
    ensures Knows(d, q + [t])
  {
    if t.LeftBracket? || t.LeftBrace? {
      OpenMoves(fl, h, c, d, q, t);
    } else if t.RightBracket? || t.RightBrace? {
      CloseMoves(fl, h, c, d, q, t);
    } else if t.Comma? || t.Colon? {
      DelimiterMoves(fl, h, c, d, q, t);
    } else {
      LeafMoves(fl, h, c, d, q, t);
    }
  }

  /** What is due in a state. */
  lemma {:induction false} DueIn(c: Config, q: seq<Token>)
    requires Knows(c, q)
    ensures NameDue(q) <==> c.state == ObjectInitial || c.state == MemberDelimiter
    ensures ColonDue(q) <==> c.state == MemberKey
    ensures ValueDue(q) <==> c.state == Start || c.state == KeyValueDelimiter || c.state == ArrayInitial || c.state == ElementDelimiter
    ensures q == [] <==> c.state == Start
  {
    InnerOpened(c, q);
  }

  lemma {:induction false} PunctuationMovedIsNoFault(fl: Flags, h: Handler, c: Config, q: seq<Token>, code: ErrorCode)
    requires Knows(c, q) && c.rest != [] && !BeginsValue(c.rest) && Advance(fl, h, c).Moved?
    ensures !Fault(fl, q, c.rest, code)
  {
    DueIn(c, q);
    InnerOpened(c, q);
  }

  lemma {:induction false} ValueMovedIsNoFault(fl: Flags, h: Handler, c: Config, q: seq<Token>, code: ErrorCode)
    requires Knows(c, q) && BeginsValue(c.rest) && c.rest[0] != Space && Advance(fl, h, c).Moved?
    ensures !Fault(fl, q, c.rest, code)
  {
    DueIn(c, q);
    InnerOpened(c, q);
  }

  lemma {:induction false} MovedIsNoFault(fl: Flags, h: Handler, c: Config, q: seq<Token>, code: ErrorCode)
    requires Knows(c, q) && c.rest != [] && c.rest[0] != Space && Advance(fl, h, c).Moved?
    ensures !Fault(fl, q, c.rest, code)
  {
    if BeginsValue(c.rest) {
      ValueMovedIsNoFault(fl, h, c, q, code);
    } else {
      PunctuationMovedIsNoFault(fl, h, c, q, code);
    }
  }

  /** The handler refused the last event. */
  predicate Refused(h: Handler, code: ErrorCode, es: seq<Event>) {
    code == Termination && es != [] && !h(es)
  }

  /** A leaf that stops the parse. */
  predicate BadLeaf(t: Token, code: ErrorCode) {
    t == Str(Bad(code)) || t == NumberLit(Bad(code)) || (Misspelled(t) && code == ValueInvalid)
  }

  lemma {:induction false} LeafFails(h: Handler, ts: seq<Token>, es: seq<Event>, isKey: bool, code: ErrorCode, after: seq<Event>)
    requires BeginsValue(ts) && ts[0] != Space && !ts[0].LeftBracket? && !ts[0].LeftBrace?
    requires ParseLeaf(h, ts, es, isKey) == Failed(code, after)
    ensures BadLeaf(ts[0], code) || Refused(h, code, after)
  {}

  lemma {:induction false} LeafAhead(fl: Flags, h: Handler, c: Config, q: seq<Token>) returns (dst: State)
    requires Knows(c, q) && BeginsValue(c.rest) && c.rest[0] != Space && (NameDue(q) ==> c.rest[0].Str?)
    requires (NameDue(q) || ValueDue(q)) && !c.rest[0].LeftBracket? && !c.rest[0].LeftBrace?
    ensures Advance(fl, h, c) == MoveTo(ParseLeaf(h, c.rest, c.events, NameDue(q)), dst, c.stack)
  {
    DueIn(c, q);
    dst := if c.state == Start then Finish else Predict(c.state, Tokenize(c.rest));
  }

  lemma {:induction false} StuckAtValue(fl: Flags, h: Handler, c: Config, q: seq<Token>, code: ErrorCode, es: seq<Event>)
    requires Knows(c, q) && BeginsValue(c.rest) && c.rest[0] != Space && Advance(fl, h, c) == Stuck(code, es)
    requires (NameDue(q) ==> c.rest[0].Str?) && (NameDue(q) || ValueDue(q))
    ensures Fault(fl, q, c.rest, code) || Refused(h, code, es)
  {
    if c.rest[0].LeftBracket? || c.rest[0].LeftBrace? {
      DueIn(c, q);
    } else {
      var dst := LeafAhead(fl, h, c, q);
      LeafFails(h, c.rest, c.events, NameDue(q), code, es);
    }
  }

  lemma {:induction false} StuckAtClose(fl: Flags, h: Handler, c: Config, q: seq<Token>, code: ErrorCode, es: seq<Event>)
    requires Knows(c, q) && c.rest != [] && Advance(fl, h, c) == Stuck(code, es)
    requires c.rest[0].RightBracket? || c.rest[0].RightBrace?
    requires c.state == Finish ==> !fl.stopWhenDone
    ensures Fault(fl, q, c.rest, code) || Refused(h, code, es)
  {
    DueIn(c, q);
    InnerOpened(c, q);
  }

  lemma {:induction false} StuckElsewhere(fl: Flags, h: Handler, c: Config, q: seq<Token>, code: ErrorCode, es: seq<Event>)
    requires Knows(c, q) && c.rest != [] && c.rest[0] != Space && Advance(fl, h, c) == Stuck(code, es)
    requires !c.rest[0].RightBracket? && !c.rest[0].RightBrace?
    requires !(BeginsValue(c.rest) && (NameDue(q) ==> c.rest[0].Str?) && (NameDue(q) || ValueDue(q)))
    requires c.state == Finish ==> !fl.stopWhenDone
    ensures Fault(fl, q, c.rest, code)
  {
    DueIn(c, q);
    InnerOpened(c, q);
  }

  lemma {:induction false} StuckIsFault(fl: Flags, h: Handler, c: Config, q: seq<Token>, code: ErrorCode, es: seq<Event>)
    requires Knows(c, q) && c.rest != [] && c.rest[0] != Space && Advance(fl, h, c) == Stuck(code, es)
    requires c.state == Finish ==> !fl.stopWhenDone
    ensures Fault(fl, q, c.rest, code) || Refused(h, code, es)
  {
    if c.rest[0].RightBracket? || c.rest[0].RightBrace? {
      StuckAtClose(fl, h, c, q, code, es);
    } else if BeginsValue(c.rest) && (NameDue(q) ==> c.rest[0].Str?) && (NameDue(q) || ValueDue(q)) {
      StuckAtValue(fl, h, c, q, code, es);
    } else {
      StuckElsewhere(fl, h, c, q, code, es);
    }
  }

  lemma {:induction false} EndIsFault(fl: Flags, c: Config, q: seq<Token>, code: ErrorCode)
    requires Knows(c, q)
    ensures Fault(fl, q, [], code) <==> c.state != Finish && code == MissingAt(c.state)
  {
    InnerOpened(c, q);
  }

  // ----- The whole text -----

  /** At a place behind which no whitespace stands, a text cannot be gone on from. */
  predicate FaultAt(fl: Flags, ts: seq<Token>, k: nat, code: ErrorCode) {
    k <= |ts| && (k < |ts| ==> ts[k] != Space) && Fault(fl, Strip(ts[..k]), ts[k..], code)
  }

  ghost predicate NoFaultBefore(fl: Flags, ts: seq<Token>, k: nat) {
    forall j: nat, code | j < k :: !FaultAt(fl, ts, j, code)
  }

  ghost predicate FirstFault(fl: Flags, ts: seq<Token>, k: nat, code: ErrorCode) {
    FaultAt(fl, ts, k, code) && NoFaultBefore(fl, ts, k)
  }

  /** The automaton has come to a place of a text, and nothing was wrong before. */
  ghost predicate Reached(fl: Flags, ts: seq<Token>, k: nat, c: Config) {
    && k <= |ts| && c.rest == ts[k..] && (k < |ts| ==> ts[k] != Space)
    && Knows(c, Strip(ts[..k]))
    && NoFaultBefore(fl, ts, k)
  }

  lemma {:induction false} StripOneMore(ts: seq<Token>, k: nat)
    requires k < |ts|
    ensures Strip(ts[..k + 1]) == if ts[k] == Space then Strip(ts[..k]) else Strip(ts[..k]) + [ts[k]]
  {
    assert ts[..k + 1] == ts[..k] + [ts[k]];
    StripAppend(ts[..k], [ts[k]]);
    assert Strip([ts[k]]) == if ts[k] == Space then [] else [ts[k]];
  }

  /** Skipping whitespace passes no place at which there could be a fault. */
  lemma {:induction false} SkipTo(fl: Flags, ts: seq<Token>, k: nat) returns (n: nat)
    requires k <= |ts| && NoFaultBefore(fl, ts, k)
    ensures k <= n <= |ts| && Skip(ts[k..]) == ts[n..] && (n < |ts| ==> ts[n] != Space)
    ensures Strip(ts[..n]) == Strip(ts[..k]) && NoFaultBefore(fl, ts, n)
    decreases |ts| - k
  {
    if k < |ts| && ts[k] == Space {
      StripOneMore(ts, k);
      assert ts[k..][1..] == ts[k + 1..];
      n := SkipTo(fl, ts, k + 1);
    } else {
      n := k;
    }
  }

  lemma {:induction false} NextPlace(fl: Flags, h: Handler, ts: seq<Token>, k: nat, c: Config, d: Config) returns (n: nat)
    requires Reached(fl, ts, k, c) && k < |ts| && Advance(fl, h, c) == Moved(d)
    ensures k < n <= |ts| && Skip(d.rest) == ts[n..] && Reached(fl, ts, n, d.(rest := Skip(d.rest)))
    ensures d.rest == ts[k + 1..] && NoFaultBefore(fl, ts, k + 1)
  {
    var q := Strip(ts[..k]);
    assert c.rest[0] == ts[k] && d.rest == ts[k + 1..];
    forall code ensures !FaultAt(fl, ts, k, code) {
      MovedIsNoFault(fl, h, c, q, code);
    }
    MovedKnows(fl, h, c, d, q, ts[k]);
    StripOneMore(ts, k);
    n := SkipTo(fl, ts, k + 1);
  }

  /** A run fails at the first fault, with the code it has, or because the handler refused an event; and
      it succeeds when there is none in what was read. */
  ghost predicate Judged(fl: Flags, h: Handler, ts: seq<Token>, o: Outcome) {
    match o
    case Failed(code, es) => Refused(h, code, es) || exists k: nat :: FirstFault(fl, ts, k, code)
    case Done(rest, _) =>
      && |rest| <= |ts| && rest == ts[|ts| - |rest|..]
      && NoFaultBefore(fl, ts, |ts| - |rest|)
      && (!fl.stopWhenDone ==> rest == [] && NoFaultBefore(fl, ts, |ts| + 1))
  }

  lemma {:induction false} RunIsJudged(fl: Flags, h: Handler, ts: seq<Token>, k: nat, c: Config)
    requires Reached(fl, ts, k, c) && (c.state == Finish ==> !fl.stopWhenDone)
    ensures Judged(fl, h, ts, Run(fl, h, c))
    decreases |ts| - k
  {
    if k == |ts| {
      EndIsJudged(fl, h, ts, c);
    } else {
      match Advance(fl, h, c)
      case Stuck(code, es) => StuckIsJudged(fl, h, ts, k, c, code, es);
      case Moved(d) =>
        var n := NextPlace(fl, h, ts, k, c, d);
        if fl.stopWhenDone && d.state == Finish {
          assert Run(fl, h, c) == Done(d.rest, d.events);
        } else {
          RunIsJudged(fl, h, ts, n, d.(rest := Skip(d.rest)));
        }
    }
  }

  lemma {:induction false} EndIsJudged(fl: Flags, h: Handler, ts: seq<Token>, c: Config)
    requires Reached(fl, ts, |ts|, c)
    ensures Judged(fl, h, ts, Run(fl, h, c))
  {
    assert c.rest == [] == ts[|ts|..];
    forall code ensures FaultAt(fl, ts, |ts|, code) <==> c.state != Finish && code == MissingAt(c.state) {
      EndIsFault(fl, c, Strip(ts[..|ts|]), code);
    }
    if c.state != Finish {
      assert FirstFault(fl, ts, |ts|, MissingAt(c.state));
    }
  }

  lemma {:induction false} StuckIsJudged(fl: Flags, h: Handler, ts: seq<Token>, k: nat, c: Config, code: ErrorCode, es: seq<Event>)
    requires Reached(fl, ts, k, c) && k < |ts| && (c.state == Finish ==> !fl.stopWhenDone)
    requires Advance(fl, h, c) == Stuck(code, es)
    ensures Judged(fl, h, ts, Failed(code, es))
  {
    StuckIsFault(fl, h, c, Strip(ts[..k]), code, es);
    if !Refused(h, code, es) {
      assert FirstFault(fl, ts, k, code);
    }
  }

  /** For every text, every flags and every handler. */
  lemma {:induction false} FirstFaultDecides(fl: Flags, h: Handler, ts: seq<Token>)
    ensures Judged(fl, h, ts, IterativeParse(fl, h, ts))
  {
    assert ts[0..] == ts && ts[..0] == [];
    var k := SkipTo(fl, ts, 0);
    RunIsJudged(fl, h, ts, k, Config(Start, Bottom, Skip(ts), []));
  }

  /** At a place there is one fault at most. */
  lemma {:induction false} OneFault(fl: Flags, q: seq<Token>, rest: seq<Token>, code: ErrorCode, other: ErrorCode)
    requires Fault(fl, q, rest, code) && Fault(fl, q, rest, other)
    ensures code == other
  {}

  /** Under a handler that goes on, a parse of the whole text fails with a code exactly if that is the
      first fault of the text. */
  lemma {:induction false} FailsIffFaulty(fl: Flags, h: Handler, ts: seq<Token>, code: ErrorCode)
    requires NeverStops(h) && !fl.stopWhenDone
    ensures
      var o := IterativeParse(fl, h, ts);
      (o.Failed? && o.code == code) <==> exists k: nat :: FirstFault(fl, ts, k, code)
  {
    FirstFaultDecides(fl, h, ts);
    forall k: nat | FirstFault(fl, ts, k, code)
      ensures IterativeParse(fl, h, ts).Failed? && IterativeParse(fl, h, ts).code == code
    {
      FaultyFails(fl, h, ts, k, code, IterativeParse(fl, h, ts));
    }
  }

  lemma {:induction false} FirstFaultsAgree(fl: Flags, ts: seq<Token>, k: nat, code: ErrorCode, j: nat, other: ErrorCode)
    requires FirstFault(fl, ts, k, code) && FirstFault(fl, ts, j, other)
    ensures k == j && code == other
  {
    if k == j {
      OneFault(fl, Strip(ts[..k]), ts[k..], code, other);
    }
  }

  lemma {:induction false} FaultyFails(fl: Flags, h: Handler, ts: seq<Token>, k: nat, code: ErrorCode, o: Outcome)
    requires NeverStops(h) && !fl.stopWhenDone && Judged(fl, h, ts, o) && FirstFault(fl, ts, k, code)
    ensures o.Failed? && o.code == code
  {
    assert FaultAt(fl, ts, k, code) && k <= |ts|;
    if o.Failed? {
      var j: nat :| FirstFault(fl, ts, j, o.code);
      FirstFaultsAgree(fl, ts, k, code, j, o.code);
    }
  }

  /** So does the recursive-descent parser, but for a text that begins with what begins no value. */
  lemma {:induction false} DescentIsJudged(fl: Flags, h: Handler, ts: seq<Token>)
    ensures
      if ParserEquivalence.BeginsNoValue(Skip(ts)) then
        Descent.Parse(fl, h, ts) == Failed(ValueInvalid, []) && exists k: nat :: FirstFault(fl, ts, k, DocumentEmpty)
      else Judged(fl, h, ts, Descent.Parse(fl, h, ts))
  {
    ParserEquivalence.ParsersAgree(fl, h, ts);
    FirstFaultDecides(fl, h, ts);
  }
}
