/** Pointers in trees: querying, creating and setting the value at a location. */
module PointerTree {
  import opened Basics
  import opened Decimals
  import opened JsonSyntax
  import opened JsonTree
  import P = PointerSyntax
  import PointerRoundTrip

  type Token = P.Token

  // Where a value stands in a tree: the position of each child on the way to it.
  type Location = seq<nat>

  const NULL: Tree := Atom(Null)
  const DASH: Bytes := [0x2D]

  // ----- Children by position -----

  function Arity(v: Tree): nat {
    match v
    case Array(elements) => |elements|
    case Object(members) => |members|
    case _ => 0
  }

  function Child(v: Tree, k: nat): Tree
    requires k < Arity(v)
  {
    match v
    case Array(elements) => elements[k]
    case Object(members) => members[k].value
  }

  function WithChild(v: Tree, k: nat, child: Tree): Tree
    requires k < Arity(v)
  {
    match v
    case Array(elements) => Array(elements[k := child])
    case Object(members) => Object(members[k := Member(members[k].name, child)])
  }

  predicate Inside(v: Tree, at: Location)
    decreases at
  {
    |at| == 0 || (at[0] < Arity(v) && Inside(Child(v, at[0]), at[1..]))
  }

  function ValueAt(v: Tree, at: Location): Tree
    requires Inside(v, at)
    decreases at
  {
    if |at| == 0 then v else ValueAt(Child(v, at[0]), at[1..])
  }

  function Replace(v: Tree, at: Location, value: Tree): Tree
    requires Inside(v, at)
    decreases at
  {
    if |at| == 0 then value else WithChild(v, at[0], Replace(Child(v, at[0]), at[1..], value))
  }

  /** The first member of a name. */
  function FindMember(members: seq<Member>, name: Bytes): (k: nat)
    ensures k <= |members|
    ensures k < |members| ==> members[k].name == name
    ensures forall i | 0 <= i < k :: members[i].name != name
  {
    if |members| == 0 then 0
    else if members[0].name == name then 0
    else 1 + FindMember(members[1..], name)
  }

  // ----- Get -----

  function Resolve(v: Tree, t: Token): Option<nat> {
    match v
    case Object(members) =>
      var k := FindMember(members, t.name);
      if k == |members| then None else Some(k)
    case Array(elements) =>
      if t.index == P.INVALID_INDEX || t.index >= |elements| then None else Some(t.index)
    case _ => None
  }

  function Get(v: Tree, ts: seq<Token>): Option<Location>
    decreases ts
  {
    if |ts| == 0 then Some([])
    else
      match Resolve(v, ts[0])
      case None => None
      case Some(k) =>
        ResolveInside(v, ts[0]);
        var rest := Get(Child(v, k), ts[1..]);
        if rest.None? then None else Some([k] + rest.value)
  }

  lemma {:induction false} ResolveInside(v: Tree, t: Token)
    requires Resolve(v, t).Some?
    ensures Resolve(v, t).value < Arity(v)
  {}

  // ----- Create -----

  // A container after a token has been followed into it, the child's position, and whether the
  // child was there before.
  datatype Step = Step(container: Tree, k: nat, exist: bool)

  function Nulls(n: nat): (vs: seq<Tree>)
    ensures |vs| == n && forall i | 0 <= i < n :: vs[i] == NULL
  {
    if n == 0 then [] else [NULL] + Nulls(n - 1)
  }

  /** The container that a token needs: an object for a name that is no index, an array for one
      where there is no container at all. */
  function Retyped(v: Tree, t: Token): Tree {
    if t.index == P.INVALID_INDEX then
      if v.Object? then v else Object([])
    else
      if v.Array? || v.Object? then v else Array([])
  }

  function Follow(v: Tree, t: Token): Step {
    if v.Array? && t.name == DASH then
      Step(Array(v.elements + [NULL]), |v.elements|, false)
    else
      var c := Retyped(v, t);
      if c.Array? then
        var missing := if t.index >= |c.elements| then t.index + 1 - |c.elements| else 0;
        Step(Array(c.elements + Nulls(missing)), t.index, missing == 0)
      else
        var k := FindMember(c.members, t.name);
        if k == |c.members| then Step(Object(c.members + [Member(t.name, NULL)]), k, false) else Step(c, k, true)
  }

  lemma {:induction false} FollowInside(v: Tree, t: Token)
    ensures Follow(v, t).k < Arity(Follow(v, t).container)
  {}

  // The tree after a pointer has been created in it, the location it resolved to, and whether
  // every step of the way was there before.
  datatype Created = Created(tree: Tree, at: Location, exist: bool)

  function Create(v: Tree, ts: seq<Token>): Created
    decreases ts
  {
    if |ts| == 0 then Created(v, [], true)
    else
      var step := Follow(v, ts[0]);
      FollowInside(v, ts[0]);
      var below := Create(Child(step.container, step.k), ts[1..]);
      Created(WithChild(step.container, step.k, below.tree), [step.k] + below.at, step.exist && below.exist)
  }

  function Set(v: Tree, ts: seq<Token>, value: Tree): Tree {
    var created := Create(v, ts);
    CreateInside(v, ts);
    Replace(created.tree, created.at, value)
  }

  // ----- Children and locations -----

  lemma {:induction false} ChildOfWithChild(v: Tree, k: nat, child: Tree)
    requires k < Arity(v)
    ensures Arity(WithChild(v, k, child)) == Arity(v)
    ensures Child(WithChild(v, k, child), k) == child
    ensures forall i | 0 <= i < Arity(v) && i != k :: Child(WithChild(v, k, child), i) == Child(v, i)
    ensures child == Child(v, k) ==> WithChild(v, k, child) == v
  {}

  lemma {:induction false} CreateInside(v: Tree, ts: seq<Token>)
    ensures Inside(Create(v, ts).tree, Create(v, ts).at)
    decreases ts
  {
    if |ts| > 0 {
      var step := Follow(v, ts[0]);
      FollowInside(v, ts[0]);
      var below := Create(Child(step.container, step.k), ts[1..]);
      CreateInside(Child(step.container, step.k), ts[1..]);
      ChildOfWithChild(step.container, step.k, below.tree);
      assert ([step.k] + below.at)[1..] == below.at;
    }
  }

  // ----- Create and Get -----

  /** A dash is no index, as in every parsed pointer. */
  predicate DashesAreNoIndices(ts: seq<Token>) {
    forall k | 0 <= k < |ts| :: ts[k].name == DASH ==> ts[k].index == P.INVALID_INDEX
  }

  lemma {:induction false} ConsistentDashes(ts: seq<Token>)
    requires PointerRoundTrip.Consistent(ts)
    ensures DashesAreNoIndices(ts)
  {
    forall k | 0 <= k < |ts| && ts[k].name == DASH ensures ts[k].index == P.INVALID_INDEX {
      assert ts[k] == P.TokenOf(ts[k].name);
      assert !IsDigit(DASH[0]);
    }
  }

  lemma {:induction false} FollowExisting(v: Tree, t: Token)
    requires t.name == DASH ==> t.index == P.INVALID_INDEX
    ensures Follow(v, t).exist <==> Resolve(v, t).Some?
    ensures Follow(v, t).exist ==> Follow(v, t).container == v && Follow(v, t).k == Resolve(v, t).value
  {}

  /** A pointer is reported as already there exactly when it resolved before, and then Create finds
      the same location and leaves the tree alone. */
  lemma {:induction false} ExistsIffResolved(v: Tree, ts: seq<Token>)
    requires DashesAreNoIndices(ts)
    ensures Create(v, ts).exist <==> Get(v, ts).Some?
    ensures Create(v, ts).exist ==> Create(v, ts).tree == v && Get(v, ts) == Some(Create(v, ts).at)
    decreases ts
  {
    if |ts| > 0 {
      var step := Follow(v, ts[0]);
      FollowExisting(v, ts[0]);
      FollowInside(v, ts[0]);
      ExistsIffResolved(Child(step.container, step.k), ts[1..]);
      ChildOfWithChild(step.container, step.k, Create(Child(step.container, step.k), ts[1..]).tree);
    }
  }

  /** On its way, a pointer meets an array with a dash, which stands for the element after its last. */
  predicate MeetsDash(v: Tree, ts: seq<Token>)
    decreases ts
  {
    |ts| > 0 &&
    ((v.Array? && ts[0].name == DASH) ||
     (FollowInside(v, ts[0]); MeetsDash(Child(Follow(v, ts[0]).container, Follow(v, ts[0]).k), ts[1..])))
  }

  lemma {:induction false} FirstMember(members: seq<Member>, name: Bytes, k: nat)
    requires k < |members| && members[k].name == name
    requires forall i | 0 <= i < k :: members[i].name != name
    ensures FindMember(members, name) == k
  {}

  lemma {:induction false} FollowedResolves(v: Tree, t: Token, child: Tree)
    requires t.name == DASH ==> t.index == P.INVALID_INDEX
    requires Follow(v, t).k < Arity(Follow(v, t).container)
    ensures
      var step := Follow(v, t);
      Resolve(WithChild(step.container, step.k, child), t) == if v.Array? && t.name == DASH then None else Some(step.k)
  {
    var step := Follow(v, t);
    var after := WithChild(step.container, step.k, child);
    if after.Object? {
      FirstMember(after.members, t.name, step.k);
    }
  }

  /** After Create, the pointer resolves to the created location, unless it met an array with a dash:
      a dash never resolves. */
  lemma {:induction false} GetAfterCreate(v: Tree, ts: seq<Token>, value: Tree)
    requires DashesAreNoIndices(ts)
    ensures Get(Set(v, ts, value), ts) == if MeetsDash(v, ts) then None else Some(Create(v, ts).at)
    decreases ts
  {
    if |ts| > 0 {
      var step := Follow(v, ts[0]);
      FollowInside(v, ts[0]);
      var child := Child(step.container, step.k);
      var below := Create(child, ts[1..]);
      CreateInside(child, ts[1..]);
      SetBelow(v, ts, value);
      FollowedResolves(v, ts[0], Set(child, ts[1..], value));
      ChildOfWithChild(step.container, step.k, Set(child, ts[1..], value));
      GetAfterCreate(child, ts[1..], value);
    }
  }

  lemma {:induction false} SetBelow(v: Tree, ts: seq<Token>, value: Tree)
    requires |ts| > 0
    ensures Follow(v, ts[0]).k < Arity(Follow(v, ts[0]).container)
    ensures
      var step := Follow(v, ts[0]);
      Set(v, ts, value) == WithChild(step.container, step.k, Set(Child(step.container, step.k), ts[1..], value))
  {
    var step := Follow(v, ts[0]);
    FollowInside(v, ts[0]);
    var child := Child(step.container, step.k);
    var below := Create(child, ts[1..]);
    CreateInside(v, ts);
    CreateInside(child, ts[1..]);
    ChildOfWithChild(step.container, step.k, below.tree);
    assert Create(v, ts).at[0] == step.k && Create(v, ts).at[1..] == below.at;
    SetTwice(step.container, step.k, below.tree, Replace(below.tree, below.at, value));
  }

  lemma {:induction false} SetTwice(v: Tree, k: nat, a: Tree, b: Tree)
    requires k < Arity(v)
    ensures Arity(WithChild(v, k, a)) == Arity(v)
    ensures WithChild(WithChild(v, k, a), k, b) == WithChild(v, k, b)
  {}

  lemma {:induction false} FollowedIsNull(v: Tree, t: Token)
    requires !Follow(v, t).exist
    ensures Follow(v, t).k < Arity(Follow(v, t).container)
    ensures Child(Follow(v, t).container, Follow(v, t).k) == NULL
  {}

  /** A value that was not there before is created as null. */
  lemma {:induction false} CreatedIsNull(v: Tree, ts: seq<Token>)
    requires !Create(v, ts).exist
    ensures Inside(Create(v, ts).tree, Create(v, ts).at)
    ensures ValueAt(Create(v, ts).tree, Create(v, ts).at) == NULL
    decreases ts
  {
    var step := Follow(v, ts[0]);
    FollowInside(v, ts[0]);
    var child := Child(step.container, step.k);
    var below := Create(child, ts[1..]);
    CreateInside(v, ts);
    ChildOfWithChild(step.container, step.k, below.tree);
    assert Create(v, ts).at[1..] == below.at;
    if !step.exist {
      FollowedIsNull(v, ts[0]);
    }
    if |ts| > 1 {
      assert !step.exist ==> !Follow(child, ts[1]).exist;
      CreatedIsNull(child, ts[1..]);
    }
  }

  // ----- What Set changes, and what it leaves -----

  lemma {:induction false} ReplacedValue(v: Tree, at: Location, value: Tree)
    requires Inside(v, at)
    ensures Inside(Replace(v, at, value), at) && ValueAt(Replace(v, at, value), at) == value
    decreases at
  {
    if |at| > 0 {
      ChildOfWithChild(v, at[0], Replace(Child(v, at[0]), at[1..], value));
      ReplacedValue(Child(v, at[0]), at[1..], value);
    }
  }

  /** After Set, the value stands at the location where the pointer was created, and there the
      pointer resolves. */
  lemma {:induction false} SetThenGet(v: Tree, ts: seq<Token>, value: Tree)
    requires DashesAreNoIndices(ts) && !MeetsDash(v, ts)
    ensures
      var after := Set(v, ts, value);
      var found := Get(after, ts);
      found == Some(Create(v, ts).at) && Inside(after, found.value) && ValueAt(after, found.value) == value
  {
    GetAfterCreate(v, ts, value);
    CreateInside(v, ts);
    ReplacedValue(Create(v, ts).tree, Create(v, ts).at, value);
  }

  /** Setting again replaces what was set before. */
  lemma {:induction false} SetAgain(v: Tree, ts: seq<Token>, a: Tree, b: Tree)
    requires DashesAreNoIndices(ts) && !MeetsDash(v, ts)
    ensures Set(Set(v, ts, a), ts, b) == Set(v, ts, b)
  {
    GetAfterCreate(v, ts, a);
    ExistsIffResolved(Set(v, ts, a), ts);
    CreateInside(v, ts);
    ReplaceAgain(Create(v, ts).tree, Create(v, ts).at, a, b);
  }

  lemma {:induction false} ReplaceAgain(v: Tree, at: Location, a: Tree, b: Tree)
    requires Inside(v, at)
    ensures Inside(Replace(v, at, a), at) && Replace(Replace(v, at, a), at, b) == Replace(v, at, b)
    decreases at
  {
    if |at| > 0 {
      var child := Child(v, at[0]);
      ChildOfWithChild(v, at[0], Replace(child, at[1..], a));
      ReplaceAgain(child, at[1..], a, b);
      SetTwice(v, at[0], Replace(child, at[1..], a), Replace(child, at[1..], b));
    }
  }

  /** The laws of every pointer that was parsed: what Set puts in a tree is found there again, unless
      a dash met an array; and Create finds what Get finds. */
  lemma {:induction false} ParsedPointerLaws(source: Bytes, v: Tree, value: Tree)
    requires P.Parse(source).Valid?
    ensures
      var ts := P.Parse(source).tokens;
      var found := Get(Set(v, ts, value), ts);
      && (Create(v, ts).exist <==> Get(v, ts).Some?)
      && found == (if MeetsDash(v, ts) then None else Some(Create(v, ts).at))
      && (found.Some? ==> Inside(Set(v, ts, value), found.value) && ValueAt(Set(v, ts, value), found.value) == value)
  {
    var ts := P.Parse(source).tokens;
    PointerRoundTrip.ParsedPointer(source);
    ConsistentDashes(ts);
    ExistsIffResolved(v, ts);
    GetAfterCreate(v, ts, value);
    if !MeetsDash(v, ts) {
      SetThenGet(v, ts, value);
    }
  }

  /** Neither location is on the way to the other. */
  predicate Apart(a: Location, b: Location)
    decreases a
  {
    |a| > 0 && |b| > 0 && (a[0] != b[0] || Apart(a[1..], b[1..]))
  }

  /** An array meets a name that is no index and gives way to an object. */
  predicate GivesWay(v: Tree, t: Token) {
    v.Array? && t.name != DASH && t.index == P.INVALID_INDEX
  }

  /** Something of a value is not there any more when a pointer is created in a null in its place. A
      name makes an object of one member; an index makes an array of nulls up to it. */
  predicate Forgets(x: Tree, ts: seq<Token>)
    decreases ts
  {
    |ts| > 0 && exists k | 0 <= k < Arity(x) :: ForgetsChild(x, k, ts)
  }

  predicate ForgetsChild(x: Tree, k: nat, ts: seq<Token>)
    requires |ts| > 0 && k < Arity(x)
    decreases ts, 0
  {
    var isName, there := ts[0].index == P.INVALID_INDEX, if ts[0].index == P.INVALID_INDEX then 0 else ts[0].index;
    if k == there then Forgets(Child(x, k), ts[1..]) else isName || k > there || Child(x, k) != NULL
  }

  /** On the way, an array gives way that has elements which are not there any more. */
  predicate Discards(v: Tree, ts: seq<Token>)
    decreases ts
  {
    |ts| > 0 &&
    if GivesWay(v, ts[0]) then Forgets(v, ts)
    else
      FollowInside(v, ts[0]);
      Discards(Child(Follow(v, ts[0]).container, Follow(v, ts[0]).k), ts[1..])
  }

  lemma {:induction false} FollowKeeps(v: Tree, t: Token, k: nat)
    requires !GivesWay(v, t) && k < Arity(v)
    ensures k < Arity(Follow(v, t).container) && Child(Follow(v, t).container, k) == Child(v, k)
  {}

  lemma {:induction false} GivesWayToNull(v: Tree, ts: seq<Token>, value: Tree)
    requires |ts| > 0 && GivesWay(v, ts[0])
    ensures Create(v, ts) == Create(NULL, ts) && Set(v, ts, value) == Set(NULL, ts, value)
  {
    assert Follow(v, ts[0]) == Follow(NULL, ts[0]);
  }

  lemma {:induction false} FollowNull(t: Token)
    ensures
      var step, there := Follow(NULL, t), if t.index == P.INVALID_INDEX then 0 else t.index;
      && step.k == there && Arity(step.container) == there + 1
      && forall k | 0 <= k <= there :: Child(step.container, k) == NULL
  {}

  /** The value at a place is still there, the same. */
  predicate Kept(v: Tree, after: Tree, q: Location)
    requires Inside(v, q)
  {
    Inside(after, q) && ValueAt(after, q) == ValueAt(v, q)
  }

  lemma {:induction false} KeptBelow(v: Tree, after: Tree, k: nat, below: Location)
    requires k < Arity(v) && Inside(Child(v, k), below)
    ensures Inside(v, [k] + below)
    ensures Kept(v, after, [k] + below) <==> k < Arity(after) && Kept(Child(v, k), Child(after, k), below)
  {
    assert ([k] + below)[1..] == below;
  }

  /** One token in a null: the child that is followed, and its siblings. */
  lemma {:induction false} SetInNull(ts: seq<Token>, value: Tree) returns (there: nat)
    requires |ts| > 0
    ensures there == if ts[0].index == P.INVALID_INDEX then 0 else ts[0].index
    ensures Create(NULL, ts).at == [there] + Create(NULL, ts[1..]).at
    ensures Arity(Set(NULL, ts, value)) == there + 1 && Child(Set(NULL, ts, value), there) == Set(NULL, ts[1..], value)
    ensures forall k | 0 <= k < there :: Child(Set(NULL, ts, value), k) == NULL
  {
    var step := Follow(NULL, ts[0]);
    FollowNull(ts[0]);
    FollowInside(NULL, ts[0]);
    SetBelow(NULL, ts, value);
    ChildOfWithChild(step.container, step.k, Set(Child(step.container, step.k), ts[1..], value));
    there := step.k;
  }

  lemma {:induction false} NullKeeps(x: Tree, ts: seq<Token>, value: Tree, q: Location)
    requires Inside(x, q) && !Forgets(x, ts) && Apart(Create(NULL, ts).at, q)
    ensures Kept(x, Set(NULL, ts, value), q)
    decreases ts
  {
    var there := SetInNull(ts, value);
    var k, after := q[0], Set(NULL, ts, value);
    assert !ForgetsChild(x, k, ts);
    assert Create(NULL, ts).at[1..] == Create(NULL, ts[1..]).at;
    if k == there {
      NullKeeps(Child(x, k), ts[1..], value, q[1..]);
    } else {
      assert Child(x, k) == NULL == Child(after, k);
    }
  }

  lemma {:induction false} NullLoses(x: Tree, ts: seq<Token>, value: Tree) returns (q: Location)
    requires Forgets(x, ts)
    ensures Inside(x, q) && Apart(Create(NULL, ts).at, q) && !Kept(x, Set(NULL, ts, value), q)
    decreases ts
  {
    var there := SetInNull(ts, value);
    var k :| 0 <= k < Arity(x) && ForgetsChild(x, k, ts);
    assert Create(NULL, ts).at[1..] == Create(NULL, ts[1..]).at;
    if k == there {
      var below := NullLoses(Child(x, k), ts[1..], value);
      q := [k] + below;
      KeptBelow(x, Set(NULL, ts, value), k, below);
    } else {
      q := [k] + [];
      KeptBelow(x, Set(NULL, ts, value), k, []);
    }
  }

  /** One token in a container that does not give way. */
  lemma {:induction false} SetInContainer(v: Tree, ts: seq<Token>, value: Tree, k: nat)
    requires |ts| > 0 && !GivesWay(v, ts[0]) && k < Arity(v)
    ensures
      var step := Follow(v, ts[0]);
      && step.k < Arity(step.container)
      && Create(v, ts).at == [step.k] + Create(Child(step.container, step.k), ts[1..]).at
      && k < Arity(Set(v, ts, value))
      && Child(Set(v, ts, value), k)
         == (if k == step.k then Set(Child(step.container, k), ts[1..], value) else Child(v, k))
      && Child(step.container, k) == Child(v, k)
  {
    var step := Follow(v, ts[0]);
    FollowInside(v, ts[0]);
    SetBelow(v, ts, value);
    ChildOfWithChild(step.container, step.k, Set(Child(step.container, step.k), ts[1..], value));
    FollowKeeps(v, ts[0], k);
  }

  lemma {:induction false} SetKeeps(v: Tree, ts: seq<Token>, value: Tree, q: Location)
    requires Inside(v, q) && !Discards(v, ts) && Apart(Create(v, ts).at, q)
    ensures Kept(v, Set(v, ts, value), q)
    decreases ts
  {
    if GivesWay(v, ts[0]) {
      GivesWayToNull(v, ts, value);
      NullKeeps(v, ts, value, q);
    } else {
      var step := Follow(v, ts[0]);
      SetInContainer(v, ts, value, q[0]);
      if q[0] == step.k {
        assert Create(v, ts).at[1..] == Create(Child(step.container, step.k), ts[1..]).at;
        SetKeeps(Child(v, q[0]), ts[1..], value, q[1..]);
      }
    }
  }

  lemma {:induction false} NullDiscardsNothing(ts: seq<Token>)
    ensures !Discards(NULL, ts)
    decreases ts
  {
    if |ts| > 0 {
      FollowNull(ts[0]);
      NullDiscardsNothing(ts[1..]);
    }
  }

  lemma {:induction false} SetLoses(v: Tree, ts: seq<Token>, value: Tree) returns (q: Location)
    requires Discards(v, ts)
    ensures Inside(v, q) && Apart(Create(v, ts).at, q) && !Kept(v, Set(v, ts, value), q)
    decreases ts
  {
    if GivesWay(v, ts[0]) {
      GivesWayToNull(v, ts, value);
      q := NullLoses(v, ts, value);
    } else {
      var step := Follow(v, ts[0]);
      FollowInside(v, ts[0]);
      FollowedIsOld(v, ts[0]);
      if step.k >= Arity(v) {
        NullDiscardsNothing(ts[1..]);
      } else {
        SetInContainer(v, ts, value, step.k);
        var below := SetLoses(Child(v, step.k), ts[1..], value);
        q := [step.k] + below;
        assert q[1..] == below;
        assert Create(v, ts).at[1..] == Create(Child(step.container, step.k), ts[1..]).at;
      }
    }
  }

  /** A child that was not there before is a null. */
  lemma {:induction false} FollowedIsOld(v: Tree, t: Token)
    requires !GivesWay(v, t)
    ensures Follow(v, t).k < Arity(Follow(v, t).container)
    ensures Follow(v, t).k >= Arity(v) ==> Child(Follow(v, t).container, Follow(v, t).k) == NULL
  {}

  /** Every value that stood apart from the created location still stands where it was, if and only if
      no array gives way that has elements which are not there any more. */
  lemma {:induction false} SetLeavesOthers(v: Tree, ts: seq<Token>, value: Tree)
    ensures (forall q | Inside(v, q) && Apart(Create(v, ts).at, q) :: Kept(v, Set(v, ts, value), q)) <==> !Discards(v, ts)
  {
    if Discards(v, ts) {
      var q := SetLoses(v, ts, value);
    } else {
      forall q | Inside(v, q) && Apart(Create(v, ts).at, q) ensures Kept(v, Set(v, ts, value), q) {
        SetKeeps(v, ts, value, q);
      }
    }
  }

  /** Making levels that are missing discards nothing; and an array of two elements or more that gives
      way always does. */
  lemma {:induction false} DiscardsOnlyElements(v: Tree, ts: seq<Token>)
    requires |ts| > 0
    ensures GivesWay(v, ts[0]) && Arity(v) >= 2 ==> Discards(v, ts)
    ensures Arity(v) == 0 ==> !Discards(v, ts)
    ensures !v.Array? && Resolve(v, ts[0]).None? ==> !Discards(v, ts)
  {
    if !GivesWay(v, ts[0]) {
      FollowedIsOld(v, ts[0]);
      NullDiscardsNothing(ts[1..]);
    }
    if GivesWay(v, ts[0]) && Arity(v) >= 2 {
      assert ForgetsChild(v, 1, ts);
    }
  }

  /** The numeral of 2^32 - 1 is no element's token, however long the array: it resolves in none, and
      each gives way to an object when it is created. */
  lemma {:induction false} LargestIsNoElement(elements: seq<Tree>)
    ensures
      var t := P.TokenOf(Numeral(0xFFFF_FFFF));
      t.index == 0xFFFF_FFFF && Resolve(Array(elements), t) == None && GivesWay(Array(elements), t)
  {
    PointerRoundTrip.IndexTokenIsIndex(0xFFFF_FFFF);
    NumeralIsDigits(0xFFFF_FFFF);
    assert !IsDigit(DASH[0]);
  }

  // ----- What stands on the way -----

  /** An array that was made to reach an index: its elements are still there, and the new ones are null,
      but for the one at the index. */
  predicate ReachesIndex(elements: seq<Tree>, index: nat, after: Tree) {
    && after.Array?
    && |after.elements| == (if index < |elements| then |elements| else index + 1)
    && forall i | 0 <= i < |after.elements| && i != index ::
         after.elements[i] == if i < |elements| then elements[i] else Atom(Null)
  }

  /** An object that was made to have a name: the first member of the name is the one at k, added at the
      end if there was none; the other members are still there. */
  predicate HasName(members: seq<Member>, name: Bytes, after: Tree, k: nat) {
    && after.Object?
    && k <= |members|
    && |after.members| == (if k < |members| then |members| else |members| + 1)
    && after.members[k].name == name
    && (k < |members| ==> members[k].name == name)
    && (forall i | 0 <= i < k :: members[i].name != name)
    && (forall i | 0 <= i < |members| && i != k :: after.members[i] == members[i])
  }

  /** What a token that is followed to the child at k leaves in the place of a value. Arrays and objects
      stay what they are, but for an array that meets a name; where there is no container, an index makes
      an array and a name an object. */
  predicate Level(v: Tree, t: Token, after: Tree, k: nat) {
    match v
    case Array(elements) =>
      if t.name == [0x2D] then k == |elements| && ReachesIndex(elements, |elements|, after)
      else if t.index == 0xFFFF_FFFF then HasName([], t.name, after, k)
      else k == t.index && ReachesIndex(elements, t.index, after)
    case Object(members) => HasName(members, t.name, after, k)
    case _ =>
      if t.index == 0xFFFF_FFFF then HasName([], t.name, after, k)
      else k == t.index && ReachesIndex([], t.index, after)
  }

  /** The child that was there before, or null. */
  function ChildOrNull(v: Tree, t: Token, k: nat): Tree {
    if k < Arity(v) && !(v.Array? && t.name != [0x2D] && t.index == 0xFFFF_FFFF) then Child(v, k) else Atom(Null)
  }

  lemma {:induction false} LevelInside(v: Tree, t: Token, after: Tree, k: nat)
    requires Level(v, t, after, k)
    ensures k < Arity(after)
  {}

  /** The tokens have been followed from a value down to a location, and what they did not find has been
      made; at the end stands the value set, or what was there. */
  predicate Grown(v: Tree, ts: seq<Token>, after: Tree, at: Location, value: Option<Tree>)
    decreases ts
  {
    if |ts| == 0 then
      at == [] && after == if value.Some? then value.value else v
    else
      && |at| > 0
      && Level(v, ts[0], after, at[0])
      && (LevelInside(v, ts[0], after, at[0]);
          Grown(ChildOrNull(v, ts[0], at[0]), ts[1..], Child(after, at[0]), at[1..], value))
  }

  lemma {:induction false} FollowedLevel(v: Tree, t: Token, child: Tree)
    ensures Follow(v, t).k < Arity(Follow(v, t).container)
    ensures Level(v, t, WithChild(Follow(v, t).container, Follow(v, t).k, child), Follow(v, t).k)
    ensures ChildOrNull(v, t, Follow(v, t).k) == Child(Follow(v, t).container, Follow(v, t).k)
  {
    FollowInside(v, t);
  }

  /** Set and Create grow a tree just so. */
  lemma {:induction false} SetGrows(v: Tree, ts: seq<Token>, value: Tree)
    ensures Grown(v, ts, Set(v, ts, value), Create(v, ts).at, Some(value))
    decreases ts
  {
    if |ts| > 0 {
      var step := Follow(v, ts[0]);
      FollowInside(v, ts[0]);
      var child := Child(step.container, step.k);
      SetBelow(v, ts, value);
      FollowedLevel(v, ts[0], Set(child, ts[1..], value));
      ChildOfWithChild(step.container, step.k, Set(child, ts[1..], value));
      assert Create(v, ts).at[1..] == Create(child, ts[1..]).at;
      SetGrows(child, ts[1..], value);
    }
  }

  lemma {:induction false} CreateGrows(v: Tree, ts: seq<Token>)
    ensures Grown(v, ts, Create(v, ts).tree, Create(v, ts).at, None)
    decreases ts
  {
    if |ts| > 0 {
      var step := Follow(v, ts[0]);
      FollowInside(v, ts[0]);
      var child := Child(step.container, step.k);
      FollowedLevel(v, ts[0], Create(child, ts[1..]).tree);
      ChildOfWithChild(step.container, step.k, Create(child, ts[1..]).tree);
      assert Create(v, ts).at[1..] == Create(child, ts[1..]).at;
      CreateGrows(child, ts[1..]);
    }
  }

  lemma {:induction false} OneLevel(v: Tree, t: Token, a: Tree, j: nat, b: Tree, k: nat)
    requires Level(v, t, a, j) && Level(v, t, b, k)
    ensures j == k < Arity(a) && k < Arity(b)
    ensures Child(a, k) == Child(b, k) ==> a == b
  {
    LevelInside(v, t, a, j);
    if j == k && Child(a, k) == Child(b, k) && a.Array? {
      assert a.elements == b.elements;
    } else if j == k && Child(a, k) == Child(b, k) {
      assert a.members[k] == b.members[k];
      assert a.members == b.members;
    }
  }

  /** There is only one way to do so. */
  lemma {:induction false} GrownInOneWay(v: Tree, ts: seq<Token>, a: Tree, i: Location, b: Tree, j: Location, value: Option<Tree>)
    requires Grown(v, ts, a, i, value) && Grown(v, ts, b, j, value)
    ensures a == b && i == j
    decreases ts
  {
    if |ts| > 0 {
      OneLevel(v, ts[0], a, i[0], b, j[0]);
      GrownInOneWay(ChildOrNull(v, ts[0], i[0]), ts[1..], Child(a, i[0]), i[1..], Child(b, j[0]), j[1..], value);
      assert i == [i[0]] + i[1..] && j == [j[0]] + j[1..];
    }
  }

  /** /a/0 created in an empty object gives {"a":[null]}. */
  lemma {:induction false} NameThenIndex(a: Token, zero: Token)
    requires a == P.Token([0x61], 0xFFFF_FFFF) && zero == P.Token([0x30], 0)
    ensures Create(Object([]), [a, zero]).tree == Object([Member([0x61], Array([Atom(Null)]))])
  {
    var inner := Array([Atom(Null)]);
    var after := Object([Member([0x61], inner)]);
    assert Level(Object([]), a, after, 0) && Level(NULL, zero, inner, 0);
    assert [0, 0][1..] == [0] && [0][1..] == [] && [a, zero][1..] == [zero] && [zero][1..] == [];
    assert Grown(NULL, [], NULL, [], None);
    assert Grown(NULL, [zero], inner, [0], None);
    assert Grown(Object([]), [a, zero], after, [0, 0], None);
    CreateGrows(Object([]), [a, zero]);
    GrownInOneWay(Object([]), [a, zero], Create(Object([]), [a, zero]).tree, Create(Object([]), [a, zero]).at,
                  after, [0, 0], None);
  }

  // ----- The operations on the tree that has a root -----

  lemma {:induction false} InsideBelow(v: Tree, at: Location, k: nat)
    requires Inside(v, at) && k < Arity(ValueAt(v, at))
    ensures Inside(v, at + [k]) && ValueAt(v, at + [k]) == Child(ValueAt(v, at), k)
    decreases at
  {
    if |at| == 0 {
      assert at + [k] == [k] && [k][1..] == [];
    } else {
      assert (at + [k])[1..] == at[1..] + [k];
      InsideBelow(Child(v, at[0]), at[1..], k);
    }
  }

  class Root {
    var root: Tree

    constructor (root: Tree)
      ensures this.root == root
    {
      this.root := root;
    }

    /** Follows the tokens down from the root; the number of tokens resolved is returned where one
        is not. */
    method GetValue(ts: seq<Token>) returns (found: Option<Location>, unresolved: nat)
      ensures found == Get(root, ts)
      ensures found.Some? ==> Inside(root, found.value)
      ensures found.None? ==> unresolved < |ts| && Get(root, ts[..unresolved]).Some? && Get(root, ts[..unresolved + 1]).None?
    {
      var at: Location := [];
      unresolved := 0;
      assert ts[0..] == ts && ts[..0] == [];
      OnwardFromRoot(Get(root, ts));
      while unresolved < |ts|
        invariant unresolved <= |ts|
        invariant Inside(root, at) && Get(root, ts[..unresolved]) == Some(at)
        invariant Get(root, ts) == Onward(at, Get(ValueAt(root, at), ts[unresolved..]))
      {
        var t := ts[unresolved];
        var v := ValueAt(root, at);
        var next := Resolve(v, t);
        GetOneMore(root, ts[..unresolved], t, at);
        assert ts[..unresolved] + [t] == ts[..unresolved + 1];
        assert ts[unresolved..][1..] == ts[unresolved + 1..];
        if next.None? {
          return None, unresolved;
        }
        ResolveInside(v, t);
        InsideBelow(root, at, next.value);
        OnwardOnce(at, next.value, Get(Child(v, next.value), ts[unresolved + 1..]));
        at := at + [next.value];
        unresolved := unresolved + 1;
      }
      assert ts[..|ts|] == ts;
      found := Some(at);
    }

    /** Follows the tokens down from the root, making what is missing on the way. */
    method CreateValue(ts: seq<Token>) returns (at: Location, exist: bool)
      modifies this
      ensures Created(root, at, exist) == Create(old(root), ts)
      ensures Inside(root, at)
      ensures Grown(old(root), ts, root, at, None)
    {
      ghost var whole := Create(root, ts);
      CreateGrows(root, ts);
      at, exist := [], true;
      assert ts[0..] == ts && at + whole.at == whole.at;
      for i := 0 to |ts|
        invariant OnTheWay(whole, root, at, exist, ts[i..])
      {
        OneTokenOn(whole, root, at, exist, ts[i..]);
        assert ts[i..][1..] == ts[i + 1..];
        var step := Follow(ValueAt(root, at), ts[i]);
        root := Replace(root, at, step.container);
        at, exist := at + [step.k], exist && step.exist;
      }
      ReplaceBySame(root, at);
      assert at + [] == at;
    }

    method SetValue(ts: seq<Token>, value: Tree) returns (at: Location)
      modifies this
      ensures root == Set(old(root), ts, value)
      ensures at == Create(old(root), ts).at && Inside(root, at) && ValueAt(root, at) == value
      ensures Grown(old(root), ts, root, at, Some(value))
    {
      SetGrows(root, ts, value);
      var exist;
      at, exist := CreateValue(ts);
      ReplacedValue(root, at, value);
      root := Replace(root, at, value);
    }
  }

  lemma {:induction false} ReplaceDeeper(v: Tree, at: Location, container: Tree, k: nat, child: Tree)
    requires Inside(v, at) && k < Arity(container)
    ensures Inside(Replace(v, at, container), at + [k])
    ensures Replace(Replace(v, at, container), at + [k], child) == Replace(v, at, WithChild(container, k, child))
    decreases at
  {
    if |at| == 0 {
      assert at + [k] == [k] && [k][1..] == [];
    } else {
      assert (at + [k])[1..] == at[1..] + [k];
      var below := Child(v, at[0]);
      ChildOfWithChild(v, at[0], Replace(below, at[1..], container));
      ReplaceDeeper(below, at[1..], container, k, child);
      SetTwice(v, at[0], Replace(below, at[1..], container), Replace(below, at[1..], WithChild(container, k, child)));
    }
  }

  lemma {:induction false} ReplaceBySame(v: Tree, at: Location)
    requires Inside(v, at)
    ensures Replace(v, at, ValueAt(v, at)) == v
    decreases at
  {
    if |at| > 0 {
      ReplaceBySame(Child(v, at[0]), at[1..]);
      ChildOfWithChild(v, at[0], Child(v, at[0]));
    }
  }

  /** A creation that has come to a location, with tokens left, ends as the whole creation does. */
  ghost predicate OnTheWay(whole: Created, tree: Tree, at: Location, exist: bool, ts: seq<Token>) {
    Inside(tree, at) &&
    var rest := Create(ValueAt(tree, at), ts);
    whole == Created(Replace(tree, at, rest.tree), at + rest.at, exist && rest.exist)
  }

  lemma {:induction false} OneTokenOn(whole: Created, tree: Tree, at: Location, exist: bool, ts: seq<Token>)
    requires |ts| > 0 && OnTheWay(whole, tree, at, exist, ts)
    ensures
      var step := Follow(ValueAt(tree, at), ts[0]);
      OnTheWay(whole, Replace(tree, at, step.container), at + [step.k], exist && step.exist, ts[1..])
  {
    var step := Follow(ValueAt(tree, at), ts[0]);
    FollowInside(ValueAt(tree, at), ts[0]);
    var child := Child(step.container, step.k);
    var rest := Create(child, ts[1..]);
    ReplaceDeeper(tree, at, step.container, step.k, rest.tree);
    ReplacedValue(tree, at, step.container);
    InsideBelow(Replace(tree, at, step.container), at, step.k);
    assert at + ([step.k] + rest.at) == at + [step.k] + rest.at;
  }

  function Onward(at: Location, rest: Option<Location>): Option<Location> {
    if rest.None? then None else Some(at + rest.value)
  }

  lemma {:induction false} OnwardFromRoot(rest: Option<Location>)
    ensures Onward([], rest) == rest
  {
    if rest.Some? {
      assert [] + rest.value == rest.value;
    }
  }

  lemma {:induction false} OnwardOnce(at: Location, k: nat, rest: Option<Location>)
    ensures Onward(at, Onward([k], rest)) == Onward(at + [k], rest)
  {
    if rest.Some? {
      assert at + ([k] + rest.value) == at + [k] + rest.value;
    }
  }

  lemma {:induction false} GetOneMore(v: Tree, ts: seq<Token>, t: Token, at: Location)
    requires Get(v, ts) == Some(at) && Inside(v, at)
    ensures
      match Resolve(ValueAt(v, at), t)
      case None => Get(v, ts + [t]) == None
      case Some(k) => Get(v, ts + [t]) == Some(at + [k])
    decreases ts
  {
    if |ts| == 0 {
      assert ts + [t] == [t] && [t][1..] == [];
      var next := Resolve(v, t);
      if next.Some? {
        ResolveInside(v, t);
        assert Get(Child(v, next.value), []) == Some([]);
        assert at + [next.value] == [next.value] + [];
      }
    } else {
      assert (ts + [t])[1..] == ts[1..] + [t];
      var k := Resolve(v, ts[0]).value;
      assert at == [k] + at[1..];
      GetOneMore(Child(v, k), ts[1..], t, at[1..]);
      var next := Resolve(ValueAt(v, at), t);
      if next.Some? {
        assert [k] + (at[1..] + [next.value]) == at + [next.value];
      }
    }
  }
}
