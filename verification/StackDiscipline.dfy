/** The parser's frames and the document's stack through every run: what no wrapped count leaves
    behind is exactly what the frames say, and no pop reaches below the container it closes. */
module StackDiscipline {
  import opened Basics
  import opened JsonSyntax
  import opened JsonTree
  import opened Grammar
  import opened Pushdown
  import opened ParserEquivalence
  import Descent
  import D = Document

  /** How many values lie above the innermost container's slot, by the state and its count. */
  function Above(state: State, count: nat): nat {
    match state
    case Element => count + 1
    case ArrayInitial | ElementDelimiter => count
    case MemberKey | KeyValueDelimiter => 2 * count + 1
    case MemberValue => 2 * count + 2
    case ObjectInitial | MemberDelimiter => 2 * count
    case _ => 0
  }

  predicate InObject(state: State) {
    || state == ObjectInitial || state == MemberKey || state == KeyValueDelimiter
    || state == MemberValue || state == MemberDelimiter
  }

  /** The state in which a container waits while a value nested in it is read. */
  function Waiting(back: State): State {
    if back == Element then ElementDelimiter else if back == MemberValue then KeyValueDelimiter else back
  }

  // ----- How many values there are, and how many the frames account for -----

  /** How many values are on the document's stack by the parser's state and frames. */
  function Owed(state: State, stack: Stack): nat
    decreases stack
  {
    match stack
    case Bottom => if state == Finish then 1 else 0
    case Push(back, count, below) => 1 + Above(state, count) + Owed(Waiting(back), below)
  }

  /** How many values a transition forgets: when it counts a child and the count wraps, all the
      children counted before. */
  function Lost(c: Config): nat {
    if c.stack.Push? && (c.state == Element || c.state == MemberValue) && Predict(c.state, Tokenize(c.rest)) != Error then
      Forgotten(c.stack.count) * if c.state == MemberValue then 2 else 1
    else 0
  }

  function Forgotten(count: nat): nat {
    D.Wraps(count + 1);
    count + 1 - Inc(count)
  }

  /** How many values the rest of a run forgets. */
  function LostIn(fl: Flags, h: Handler, c: Config): nat
    requires StackFits(c.state, c.stack)
    decreases |c.rest|
  {
    if c.rest == [] then 0
    else
      Lost(c) + match Advance(fl, h, c)
                case Stuck(_, _) => 0
                case Moved(d) =>
                  if fl.stopWhenDone && d.state == Finish then 0 else LostIn(fl, h, d.(rest := Skip(d.rest)))
  }

  predicate Unwrapped(fl: Flags, h: Handler, ts: seq<Token>) {
    LostIn(fl, h, Config(Start, Bottom, Skip(ts), [])) == 0
  }

  /** How many values there are beyond those that the frames account for. */
  function Excess(c: Config): int {
    D.Height(c.events) - Owed(c.state, c.stack)
  }

  /** A log with one event more: its height, and that the event found what it pops. */
  lemma {:induction false} Balance(h: Handler, c: Config, rest: seq<Token>, e: Event, state: State, stack: Stack)
    requires D.Covered(c.events) && D.Needs(e) <= D.Height(c.events)
    ensures Balanced(MoveTo(Emit(h, rest, c.events, e), state, stack),
                     D.Height(c.events) + D.Change(e) - Owed(state, stack))
  {
    D.HeightNext(c.events, e);
  }

  predicate Balanced(step: Step, excess: int) {
    match step
    case Moved(d) => D.Covered(d.events) && Excess(d) == excess
    case Stuck(_, es) => D.Covered(es)
  }

  /** A value in its place: one more than was waited with. */
  lemma {:induction false} OwedAfterValue(back: State, stack: Stack)
    requires StackFits(Waiting(back), stack) && (back == Start || back == Element || back == MemberValue)
    ensures Owed(Restored(back), stack) == Owed(Waiting(back), stack) + 1
  {}

  lemma {:induction false} OwedForValue(src: State, stack: Stack)
    requires WantsValue(src) && StackFits(src, stack)
    ensures Owed(Waiting(BackState(src)), stack) == Owed(src, stack)
  {}

  /** The event of a string, literal or number. */
  lemma {:induction false} ScalarEvent(h: Handler, ts: seq<Token>, es: seq<Event>, isKey: bool) returns (e: Event)
    requires ParseLeaf(h, ts, es, isKey).events != es
    ensures ts != [] && ParseLeaf(h, ts, es, isKey) == Emit(h, ts[1..], es, e)
    ensures D.Change(e) == 1 && D.Needs(e) == 0
  {
    match ts[0]
    case Str(Good(text)) => e := if isKey then Key(text) else String(text);
    case FalseLit(_) => e := Value(Bool(false));
    case TrueLit(_) => e := Value(Bool(true));
    case NullLit(_) => e := Value(Null);
    case NumberLit(Good(n)) => e := Value(Num(n));
  }

  lemma {:induction false} BalanceLeaf(h: Handler, c: Config, isKey: bool, state: State)
    requires D.Covered(c.events) && D.Height(c.events) >= 0
    ensures Balanced(MoveTo(ParseLeaf(h, c.rest, c.events, isKey), state, c.stack),
                     D.Height(c.events) + 1 - Owed(state, c.stack))
  {
    if ParseLeaf(h, c.rest, c.events, isKey).events != c.events {
      var e := ScalarEvent(h, c.rest, c.events, isKey);
      Balance(h, c, c.rest[1..], e, state, c.stack);
    } else {
      LeafIsHeard(h, c.rest, c.events, isKey);
    }
  }

  lemma {:induction false} LeafIsHeard(h: Handler, ts: seq<Token>, es: seq<Event>, isKey: bool)
    requires ParseLeaf(h, ts, es, isKey).events == es
    ensures ParseLeaf(h, ts, es, isKey).Failed?
  {}

  predicate Next(c: Config, dst: State) {
    StackFits(c.state, c.stack) && D.Covered(c.events) && Excess(c) >= 0 && dst == Predict(c.state, Tokenize(c.rest))
  }

  lemma {:induction false} OpenedBalance(h: Handler, c: Config, e: Event, dst: State)
    requires WantsValue(c.state) && StackFits(c.state, c.stack) && D.Covered(c.events) && Excess(c) >= 0
    requires (e == StartObject && dst == ObjectInitial) || (e == StartArray && dst == ArrayInitial)
    ensures Balanced(MoveTo(Emit(h, Take(c.rest), c.events, e), dst, Push(BackState(c.state), 0, c.stack)), Excess(c))
  {
    OwedForValue(c.state, c.stack);
    Balance(h, c, Take(c.rest), e, dst, Push(BackState(c.state), 0, c.stack));
  }

  lemma {:induction false} ValueBalance(h: Handler, c: Config)
    requires WantsValue(c.state) && StackFits(c.state, c.stack) && D.Covered(c.events) && Excess(c) >= 0
    ensures Balanced(MoveTo(ParseLeaf(h, c.rest, c.events, false), AfterValue(c.state), c.stack), Excess(c))
  {
    OwedForValue(c.state, c.stack);
    OwedAfterValue(BackState(c.state), c.stack);
    BalanceLeaf(h, c, false, AfterValue(c.state));
  }

  /** Only where a value is wanted does one begin, and nothing is counted there. */
  lemma {:induction false} NothingLost(c: Config, dst: State)
    requires StackFits(c.state, c.stack) && dst == Predict(c.state, Tokenize(c.rest))
    requires dst == ObjectInitial || dst == ArrayInitial || dst == MemberValue || dst == Element || dst == SingleValue
    ensures WantsValue(c.state) && Lost(c) == 0
    ensures dst == MemberValue || dst == Element ==> dst == AfterValue(c.state)
    ensures dst == SingleValue ==> AfterValue(c.state) == Finish
  {}

  lemma {:induction false} BalanceOpen(fl: Flags, h: Handler, c: Config, dst: State)
    requires Next(c, dst) && (dst == ObjectInitial || dst == ArrayInitial)
    ensures Balanced(Advance(fl, h, c), Excess(c) + Lost(c))
  {
    NothingLost(c, dst);
    var e := if dst == ObjectInitial then StartObject else StartArray;
    OpenedBalance(h, c, e, dst);
    assert Advance(fl, h, c) == MoveTo(Emit(h, Take(c.rest), c.events, e), dst, Push(BackState(c.state), 0, c.stack));
  }

  lemma {:induction false} BalanceKey(fl: Flags, h: Handler, c: Config)
    requires Next(c, MemberKey)
    ensures Balanced(Advance(fl, h, c), Excess(c) + Lost(c))
  {
    BalanceLeaf(h, c, true, MemberKey);
  }

  lemma {:induction false} BalanceValue(fl: Flags, h: Handler, c: Config, dst: State)
    requires Next(c, dst) && (dst == MemberValue || dst == Element || dst == SingleValue)
    ensures Balanced(Advance(fl, h, c), Excess(c) + Lost(c))
  {
    NothingLost(c, dst);
    ValueBalance(h, c);
    assert Advance(fl, h, c) == MoveTo(ParseLeaf(h, c.rest, c.events, false), AfterValue(c.state), c.stack);
  }

  lemma {:induction false} BalanceDelimiter(fl: Flags, h: Handler, c: Config, dst: State)
    requires Next(c, dst) && IsDelimiter(dst)
    ensures Balanced(Advance(fl, h, c), Excess(c) + Lost(c))
  {}

  /** How a container is closed: by its count, which leaves there what was forgotten, unless a trailing
      comma is refused. */
  lemma {:induction false} Closing(fl: Flags, h: Handler, c: Config, dst: State) returns (n: nat, e: Event)
    requires StackFits(c.state, c.stack)
    requires dst == Predict(c.state, Tokenize(c.rest)) && (dst == ObjectFinish || dst == ArrayFinish)
    ensures c.stack.Push? && e == if InObject(c.state) then EndObject(n) else EndArray(n)
    ensures Above(c.state, c.stack.count) == Lost(c) + if InObject(c.state) then 2 * n else n
    ensures || Advance(fl, h, c) == MoveTo(Emit(h, Take(c.rest), c.events, e), Restored(c.stack.back), c.stack.below)
            || (Advance(fl, h, c).Stuck? && Advance(fl, h, c).events == c.events)
  {
    n := if c.state == MemberValue || c.state == Element then Inc(c.stack.count) else c.stack.count;
    e := if InObject(c.state) then EndObject(n) else EndArray(n);
  }

  lemma {:induction false} BalanceFinish(fl: Flags, h: Handler, c: Config, dst: State)
    requires Next(c, dst) && (dst == ObjectFinish || dst == ArrayFinish)
    ensures Balanced(Advance(fl, h, c), Excess(c) + Lost(c))
  {
    var n, e := Closing(fl, h, c, dst);
    BalanceClose(h, c, e, n);
  }

  lemma {:induction false} BalanceClose(h: Handler, c: Config, e: Event, n: nat)
    requires StackFits(c.state, c.stack) && c.stack.Push? && D.Covered(c.events) && Excess(c) >= 0
    requires e == if InObject(c.state) then EndObject(n) else EndArray(n)
    requires Above(c.state, c.stack.count) == Lost(c) + if InObject(c.state) then 2 * n else n
    ensures Balanced(MoveTo(Emit(h, Take(c.rest), c.events, e), Restored(c.stack.back), c.stack.below),
                     Excess(c) + Lost(c))
  {
    OwedAfterValue(c.stack.back, c.stack.below);
    Balance(h, c, Take(c.rest), e, Restored(c.stack.back), c.stack.below);
  }

  /** Every transition leaves on the stack what the frames say, what was there beyond that, and what
      it forgets; and no event pops below the bottom. */
  lemma {:induction false} StepBalances(fl: Flags, h: Handler, c: Config)
    requires StackFits(c.state, c.stack) && D.Covered(c.events) && Excess(c) >= 0
    ensures Balanced(Advance(fl, h, c), Excess(c) + Lost(c))
  {
    var dst := Predict(c.state, Tokenize(c.rest));
    match dst {
      case ObjectInitial | ArrayInitial => BalanceOpen(fl, h, c, dst);
      case MemberKey => BalanceKey(fl, h, c);
      case MemberValue | Element | SingleValue => BalanceValue(fl, h, c, dst);
      case ObjectFinish | ArrayFinish => BalanceFinish(fl, h, c, dst);
      case MemberDelimiter | ElementDelimiter | KeyValueDelimiter => BalanceDelimiter(fl, h, c, dst);
      case _ =>
    }
  }

  /** From any configuration, the run pops nothing below the bottom, and if it succeeds it leaves the
      root, what was there in excess before, and what it forgets. */
  lemma {:induction false} RunBalances(fl: Flags, h: Handler, c: Config)
    requires StackFits(c.state, c.stack) && D.Covered(c.events) && Excess(c) >= 0
    ensures D.Covered(Run(fl, h, c).events)
    ensures Run(fl, h, c).Done? ==> D.Height(Run(fl, h, c).events) == 1 + Excess(c) + LostIn(fl, h, c)
    decreases |c.rest|
  {
    if c.rest != [] {
      StepBalances(fl, h, c);
      match Advance(fl, h, c) {
        case Stuck(code, es) =>
          assert Run(fl, h, c) == Failed(code, es);
        case Moved(d) =>
          var next := d.(rest := Skip(d.rest));
          assert Run(fl, h, c) == Resume(fl, h, d);
          if !(fl.stopWhenDone && d.state == Finish) {
            RunBalances(fl, h, next);
          }
      }
    }
  }

  // ----- The document's stack, cut where containers begin -----

  // Either no container is open, or the innermost one owns a part of the stack: its slot, and
  // then its values so far.
  datatype Cut = Root(values: seq<Tree>) | Inner(outer: Cut, part: seq<Tree>)

  function Flat(cut: Cut): seq<Tree> {
    match cut
    case Root(values) => values
    case Inner(outer, part) => Flat(outer) + part
  }

  /** The values are names and values in turn, a name first. */
  predicate Named(vs: seq<Tree>) {
    vs == [] || ((|vs| % 2 == 1 ==> vs[|vs| - 1].Text?) && Named(vs[..|vs| - 1]))
  }

  predicate Segment(state: State, count: nat, part: seq<Tree>) {
    && |part| == 1 + Above(state, count)
    && part[0] == (if InObject(state) then Object([]) else Array([]))
    && (InObject(state) ==> Named(part[1..]))
  }

  /** Each open container owns the part of the stack its state and count say. */
  predicate Laid(state: State, stack: Stack, cut: Cut)
    decreases stack
  {
    match stack
    case Bottom => cut.Root? && |cut.values| == if state == Finish then 1 else 0
    case Push(back, count, below) =>
      && cut.Inner?
      && Segment(state, count, cut.part)
      && Laid(Waiting(back), below, cut.outer)
  }

  lemma {:induction false} NamedPush(vs: seq<Tree>, v: Tree)
    requires Named(vs) && (|vs| % 2 == 0 ==> v.Text?)
    ensures Named(vs + [v])
  {
    assert (vs + [v])[..|vs|] == vs;
  }

  /** Names and values in turn, in full pairs, are members. */
  lemma {:induction false} NamedArePairs(vs: seq<Tree>)
    requires Named(vs) && |vs| % 2 == 0
    ensures D.Pairs(vs).Some?
  {
    if vs != [] {
      DropPair(vs);
      NamedArePairs(vs[2..]);
    }
  }

  lemma {:induction false} DropPair(vs: seq<Tree>)
    requires Named(vs) && |vs| >= 2
    ensures vs[0].Text? && Named(vs[2..])
  {
    if |vs| == 2 {
      assert vs[..1][0] == vs[0];
    } else {
      DropPair(vs[..|vs| - 1]);
      assert vs[2..][..|vs| - 3] == vs[..|vs| - 1][2..];
    }
  }

  // ----- The moves of one step -----

  function PushOn(cut: Cut, v: Tree): Cut {
    match cut
    case Root(values) => Root(values + [v])
    case Inner(outer, part) => Inner(outer, part + [v])
  }

  lemma {:induction false} FlatPush(cut: Cut, v: Tree)
    ensures Flat(PushOn(cut, v)) == Flat(cut) + [v]
  {}

  /** A segment with one value more on top. */
  lemma {:induction false} SegmentPush(state: State, count: nat, part: seq<Tree>, v: Tree, state': State)
    requires Segment(state, count, part)
    requires InObject(state') == InObject(state) && Above(state', count) == Above(state, count) + 1
    requires InObject(state) && Above(state, count) % 2 == 0 ==> v.Text?
    ensures Segment(state', count, part + [v])
  {
    assert (part + [v])[1..] == part[1..] + [v];
    if InObject(state) {
      NamedPush(part[1..], v);
    }
  }

  /** A value where one was wanted. */
  lemma {:induction false} LayValue(back: State, stack: Stack, cut: Cut, v: Tree)
    requires StackFits(Waiting(back), stack) && (back == Start || back == Element || back == MemberValue)
    requires Laid(Waiting(back), stack, cut)
    ensures Laid(Restored(back), stack, PushOn(cut, v))
  {
    if stack.Push? {
      SegmentPush(Waiting(back), stack.count, cut.part, v, back);
    }
  }

  /** Before an array's first element and after a delimiter alike, a value may come. */
  lemma {:induction false} LaidForValue(src: State, stack: Stack, cut: Cut)
    requires WantsValue(src) && StackFits(src, stack) && Laid(src, stack, cut)
    ensures Laid(Waiting(BackState(src)), stack, cut)
  {}

  /** The closing event of a container finds its slot and puts the container there. */
  lemma {:induction false} CloseSegment(state: State, count: nat, outer: seq<Tree>, part: seq<Tree>, e: Event)
    returns (v: Tree)
    requires Segment(state, count, part)
    requires InObject(state) ==> Above(state, count) % 2 == 0 && e == EndObject(Above(state, count) / 2)
    requires !InObject(state) ==> e == EndArray(Above(state, count))
    ensures D.OnEvent(outer + part, e) == Some(outer + [v])
  {
    var all := outer + part;
    assert all[..|outer|] == outer && all[|outer| + 1..] == part[1..];
    if InObject(state) {
      NamedArePairs(part[1..]);
      v := Object(D.Pairs(part[1..]).value);
    } else {
      v := Array(part[1..]);
    }
  }

  // ----- Every step, and every run -----

  /** The document has followed the parser so far. */
  predicate InStep(c: Config, cut: Cut) {
    && StackFits(c.state, c.stack)
    && D.Build(c.events) == Some(Flat(cut))
    && Laid(c.state, c.stack, cut)
  }

  lemma {:induction false} Grow(es: seq<Event>, stack: seq<Tree>, e: Event, stack': seq<Tree>)
    requires D.Build(es) == Some(stack) && D.OnEvent(stack, e) == Some(stack')
    ensures D.Build(es + [e]) == Some(stack')
  {
    D.BuildNext(es, e);
  }

  /** A step that gives the handler one event: it is enough that the document keeps up. */
  lemma {:induction false} Give(h: Handler, c: Config, rest: seq<Token>, e: Event, state: State, stack: Stack,
                                values: seq<Tree>, cut': Cut)
    requires D.Build(c.events) == Some(values) && D.OnEvent(values, e) == Some(Flat(cut'))
    requires StackFits(state, stack) && Laid(state, stack, cut')
    ensures Keeps(MoveTo(Emit(h, rest, c.events, e), state, stack), cut')
  {
    Grow(c.events, values, e, Flat(cut'));
  }

  predicate Keeps(step: Step, cut: Cut) {
    match step
    case Moved(d) => InStep(d, cut)
    case Stuck(_, es) => D.Build(es).Some?
  }

  lemma {:induction false} OpenContainer(fl: Flags, h: Handler, c: Config, cut: Cut, e: Event,
        slot: Tree, dst: State)
    returns (cut': Cut)
    requires InStep(c, cut) && WantsValue(c.state)
    requires || (e == StartObject && slot == Object([]) && dst == ObjectInitial)
             || (e == StartArray && slot == Array([]) && dst == ArrayInitial)
    ensures Keeps(MoveTo(Emit(h, Take(c.rest), c.events, e), dst, Push(BackState(c.state), 0, c.stack)), cut')
  {
    cut' := Inner(cut, [slot]);
    LaidForValue(c.state, c.stack, cut);
    Give(h, c, Take(c.rest), e, dst, Push(BackState(c.state), 0, c.stack), Flat(cut), cut');
  }

  lemma {:induction false} CloseContainer(h: Handler, c: Config, cut: Cut, e: Event) returns (cut': Cut)
    requires InStep(c, cut) && c.stack.Push?
    requires InObject(c.state) ==> Above(c.state, c.stack.count) % 2 == 0 && e == EndObject(Above(c.state,
        c.stack.count) / 2)
    requires !InObject(c.state) ==> e == EndArray(Above(c.state, c.stack.count))
    ensures Keeps(MoveTo(Emit(h, Take(c.rest), c.events, e), Restored(c.stack.back), c.stack.below), cut')
  {
    var back, below := c.stack.back, c.stack.below;
    var v := CloseSegment(c.state, c.stack.count, Flat(cut.outer), cut.part, e);
    cut' := PushOn(cut.outer, v);
    FlatPush(cut.outer, v);
    LayValue(back, below, cut.outer, v);
    Give(h, c, Take(c.rest), e, Restored(back), below, Flat(cut), cut');
  }

  lemma {:induction false} ReadKey(h: Handler, c: Config, cut: Cut) returns (cut': Cut)
    requires InStep(c, cut) && (c.state == ObjectInitial || c.state == MemberDelimiter)
    requires c.rest != [] && c.rest[0].Str?
    ensures Keeps(MoveTo(ParseLeaf(h, c.rest, c.events, true), MemberKey, c.stack), cut')
  {
    cut' := cut;
    if c.rest[0].text.Good? {
      var name := c.rest[0].text.value;
      cut' := PushOn(cut, Text(name));
      FlatPush(cut, Text(name));
      SegmentPush(c.state, c.stack.count, cut.part, Text(name), MemberKey);
      Give(h, c, c.rest[1..], Key(name), MemberKey, c.stack, Flat(cut), cut');
    }
  }

  lemma {:induction false} ReadValue(h: Handler, c: Config, cut: Cut) returns (cut': Cut)
    requires InStep(c, cut) && WantsValue(c.state)
    ensures Keeps(MoveTo(ParseLeaf(h, c.rest, c.events, false), AfterValue(c.state), c.stack), cut')
  {
    cut' := cut;
    if ParseLeaf(h, c.rest, c.events, false).events != c.events {
      var e, v := LeafEvent(h, c.rest, c.events, Flat(cut));
      cut' := PushOn(cut, v);
      FlatPush(cut, v);
      LaidForValue(c.state, c.stack, cut);
      LayValue(BackState(c.state), c.stack, cut, v);
      Give(h, c, c.rest[1..], e, AfterValue(c.state), c.stack, Flat(cut), cut');
    }
  }

  /** The event of a leaf, and the value it pushes. */
  lemma {:induction false} LeafEvent(h: Handler, ts: seq<Token>, es: seq<Event>,
        stack: seq<Tree>) returns (e: Event, v: Tree)
    requires ParseLeaf(h, ts, es, false).events != es
    ensures ts != [] && ParseLeaf(h, ts, es, false) == Emit(h, ts[1..], es, e)
    ensures D.OnEvent(stack, e) == Some(stack + [v])
  {
    match ts[0]
    case Str(Good(text)) => e, v := String(text), Text(text);
    case FalseLit(_) => e, v := Value(Bool(false)), Atom(Bool(false));
    case TrueLit(_) => e, v := Value(Bool(true)), Atom(Bool(true));
    case NullLit(_) => e, v := Value(Null), Atom(Null);
    case NumberLit(Good(n)) => e, v := Value(Num(n)), Atom(Num(n));
  }

  lemma {:induction false} PassDelimiter(c: Config, cut: Cut, dst: State)
    requires InStep(c, cut) && Lost(c) == 0
    requires dst == Predict(c.state, Tokenize(c.rest)) && IsDelimiter(dst)
    ensures Laid(dst, if dst == KeyValueDelimiter then c.stack else Push(c.stack.back, Inc(c.stack.count), c.stack.below),
                 cut)
  {
  }

  /** One transition of the parser keeps the document in step, and no event it gives the handler
      makes the document pop below a container's slot. */
  lemma {:induction false} StepKeepsLayout(fl: Flags, h: Handler, c: Config, cut: Cut)
    returns (cut': Cut)
    requires InStep(c, cut) && Lost(c) == 0
    ensures Keeps(Advance(fl, h, c), cut')
  {
    var dst := Predict(c.state, Tokenize(c.rest));
    cut' := cut;
    match dst {
      case ObjectInitial =>
        cut' := OpenContainer(fl, h, c, cut, StartObject, Object([]), dst);
      case ArrayInitial =>
        cut' := OpenContainer(fl, h, c, cut, StartArray, Array([]), dst);
      case MemberKey =>
        cut' := ReadKey(h, c, cut);
      case MemberValue | Element | SingleValue =>
        cut' := ReadValue(h, c, cut);
      case MemberDelimiter | ElementDelimiter | KeyValueDelimiter =>
        PassDelimiter(c, cut, dst);
      case ObjectFinish | ArrayFinish =>
        cut' := FinishContainer(fl, h, c, cut);
      case _ =>
    }
  }

  lemma {:induction false} FinishContainer(fl: Flags, h: Handler, c: Config, cut: Cut) returns (cut': Cut)
    requires InStep(c, cut) && Lost(c) == 0
    requires var dst := Predict(c.state, Tokenize(c.rest)); dst == ObjectFinish || dst == ArrayFinish
    ensures Keeps(Advance(fl, h, c), cut')
  {
    cut' := cut;
    var n, e := Closing(fl, h, c, Predict(c.state, Tokenize(c.rest)));
    if Advance(fl, h, c) == MoveTo(Emit(h, Take(c.rest), c.events, e), Restored(c.stack.back), c.stack.below) {
      cut' := CloseContainer(h, c, cut, e);
    }
  }

  /** The document can be built from a log, every pop taking what it should; and it is a single value
      when the parse has succeeded. */
  predicate Safe(o: Outcome) {
    D.Build(o.events).Some? && (o.Done? ==> |D.Build(o.events).value| == 1)
  }

  lemma {:induction false} FinishIsSafe(fl: Flags, c: Config, cut: Cut)
    requires InStep(c, cut) && c.state == Finish
    ensures Safe(FinishRun(fl, c))
  {}

  /** From a configuration in step, a run that forgets nothing keeps the document in step, and leaves
      it, if it succeeds, with one value. */
  lemma {:induction false} RunKeepsLayout(fl: Flags, h: Handler, c: Config, cut: Cut)
    requires InStep(c, cut) && c.state != Finish && LostIn(fl, h, c) == 0
    ensures Safe(Run(fl, h, c))
    decreases |c.rest|
  {
    if c.rest == [] {
      EndIsSafe(fl, h, c, cut);
    } else {
      var cut' := StepKeepsLayout(fl, h, c, cut);
      match Advance(fl, h, c) {
        case Stuck(code, es) =>
          assert Run(fl, h, c) == Failed(code, es);
        case Moved(d) =>
          Turn(fl, h, c, d);
          if d.state == Finish {
            FinishIsSafe(fl, d, cut');
          } else {
            var next := SkipKeepsStep(d, cut');
            RunKeepsLayout(fl, h, next, cut');
          }
      }
    }
  }

  lemma {:induction false} EndIsSafe(fl: Flags, h: Handler, c: Config, cut: Cut)
    requires InStep(c, cut) && c.rest == [] && c.state != Finish
    ensures Safe(Run(fl, h, c))
  {}

  lemma {:induction false} SkipKeepsStep(c: Config, cut: Cut) returns (d: Config)
    requires InStep(c, cut)
    ensures d == c.(rest := Skip(c.rest)) && InStep(d, cut)
  {
    d := c.(rest := Skip(c.rest));
  }

  // ----- Whole texts -----

  /** For every text, every flags and every handler, accepted or not, parsed either way: the document
      builder never pops below its stack. It takes only names for names, and an accepted text leaves
      one value, if no count wraps; and if one does, an accepted text leaves more than one. */
  lemma {:induction false} DocumentNeverUnderflows(fl: Flags, h: Handler, ts: seq<Token>)
    ensures forall o | o == IterativeParse(fl, h, ts) || o == Descent.Parse(fl, h, ts) ::
              && D.Covered(o.events)
              && (Unwrapped(fl, h, ts) ==> Safe(o))
              && (o.Done? ==> (Unwrapped(fl, h, ts) <==> D.Height(o.events) == 1))
  {
    var c := Config(Start, Bottom, Skip(ts), []);
    RunBalances(fl, h, c);
    if Unwrapped(fl, h, ts) {
      RunKeepsLayout(fl, h, c, Root([]));
    }
    ParsersAgree(fl, h, ts);
  }

  /** When the handler never stops the parse, a count wraps on an accepted text exactly if some
      container of the document it spells has more children than a SizeType counts. */
  lemma {:induction false} WrapsIffUncountable(fl: Flags, h: Handler, ts: seq<Token>, d: Doc, unread: seq<Token>)
    requires NeverStops(h) && Spells(fl, ts, d, unread)
    ensures Unwrapped(fl, h, ts) <==> D.Countable(Meaning(d))
  {
    DocumentNeverUnderflows(fl, h, ts);
    DocumentEvents(fl, h, ts, d, unread);
    D.ParsedTree(fl, h, ts, d, unread);
  }

  // ----- Short texts -----

  predicate CountsAtMost(stack: Stack, bound: nat) {
    stack.Push? ==> stack.count <= bound && CountsAtMost(stack.below, bound)
  }

  lemma {:induction false} CountsLoosely(stack: Stack, bound: nat)
    requires CountsAtMost(stack, bound)
    ensures CountsAtMost(stack, bound + 1)
  {
    if stack.Push? {
      CountsLoosely(stack.below, bound);
    }
  }

  lemma {:induction false} StepCountsOnce(fl: Flags, h: Handler, c: Config, taken: nat)
    requires StackFits(c.state, c.stack) && CountsAtMost(c.stack, taken) && taken + 1 < SIZE_TYPE
    ensures Lost(c) == 0
    ensures Advance(fl, h, c).Moved? ==> CountsAtMost(Advance(fl, h, c).c.stack, taken + 1)
  {
    CountsLoosely(c.stack, taken);
    if c.stack.Push? {
      CountsLoosely(c.stack.below, taken);
    }
  }

  lemma {:induction false} ShortRunForgetsNothing(fl: Flags, h: Handler, c: Config, taken: nat)
    requires StackFits(c.state, c.stack) && CountsAtMost(c.stack, taken) && taken + |c.rest| < SIZE_TYPE
    ensures LostIn(fl, h, c) == 0
    decreases |c.rest|
  {
    if c.rest != [] {
      StepCountsOnce(fl, h, c, taken);
      if Advance(fl, h, c).Moved? {
        var d := Advance(fl, h, c).c;
        ShortRunForgetsNothing(fl, h, d.(rest := Skip(d.rest)), taken + 1);
      }
    }
  }

  /** A text of fewer than 2^32 tokens is too short for any count to wrap. */
  lemma {:induction false} ShortTextIsUnwrapped(fl: Flags, h: Handler, ts: seq<Token>)
    requires |ts| < SIZE_TYPE
    ensures Unwrapped(fl, h, ts)
  {
    ShortRunForgetsNothing(fl, h, Config(Start, Bottom, Skip(ts), []), 0);
  }
}
