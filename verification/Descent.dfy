/** The recursive-descent parser: Parse, ParseValue, ParseObject and ParseArray of reader.h,
    as functions from the text ahead and the events so far to what the parse leaves behind. */
module Descent {
  import opened JsonSyntax

  function ParseValue(fl: Flags, h: Handler, ts: seq<Token>, es: seq<Event>): (o: Outcome)
    ensures o.Done? ==> |o.rest| < |ts|
    decreases |ts|, 1
  {
    if ts != [] && ts[0].LeftBrace? then ParseObject(fl, h, ts[1..], es)
    else if ts != [] && ts[0].LeftBracket? then ParseArray(fl, h, ts[1..], es)
    else ParseLeaf(h, ts, es, false)
  }

  // ----- Objects -----

  /** The object whose `{` has just been taken. */
  function ParseObject(fl: Flags, h: Handler, ts: seq<Token>, es: seq<Event>): (o: Outcome)
    ensures o.Done? ==> |o.rest| <= |ts|
    decreases |ts|, 1
  {
    var (rest, es) :- Emit(h, ts, es, StartObject);
    var rest := Skip(rest);
    if rest != [] && rest[0].RightBrace? then Emit(h, rest[1..], es, EndObject(0))
    else ParseMembers(fl, h, rest, es, 0)
  }

  /** The object from the head of its member loop, with `count` members behind it. */
  function ParseMembers(fl: Flags, h: Handler, ts: seq<Token>, es: seq<Event>, count: nat): (o: Outcome)
    ensures o.Done? ==> |o.rest| < |ts|
    decreases |ts|, 0
  {
    if ts == [] || !ts[0].Str? then Failed(ObjectMissName, es) else
    var (rest, es) :- ParseLeaf(h, ts, es, true);
    MembersAfterName(fl, h, Skip(rest), es, count)
  }

  /** The object after a member's name. */
  function MembersAfterName(fl: Flags, h: Handler, ts: seq<Token>, es: seq<Event>, count: nat): (o: Outcome)
    ensures o.Done? ==> |o.rest| < |ts|
    decreases |ts|, 0
  {
    if ts == [] || !ts[0].Colon? then Failed(ObjectMissColon, es) else
    var (rest, es) :- ParseValue(fl, h, Skip(ts[1..]), es);
    MembersAfterValue(fl, h, Skip(rest), es, Inc(count))
  }

  /** The object after a member's value, `count` including that member. */
  function MembersAfterValue(fl: Flags, h: Handler, ts: seq<Token>, es: seq<Event>, count: nat): (o: Outcome)
    ensures o.Done? ==> |o.rest| < |ts|
    decreases |ts|, 0
  {
    if ts != [] && ts[0].Comma? then
      var rest := Skip(ts[1..]);
      if fl.trailingCommas && rest != [] && rest[0].RightBrace? then Emit(h, rest[1..], es, EndObject(count))
      else ParseMembers(fl, h, rest, es, count)
    else if ts != [] && ts[0].RightBrace? then Emit(h, ts[1..], es, EndObject(count))
    else Failed(ObjectMissCommaOrCurlyBracket, es)
  }

  // ----- Arrays -----

  /** The array whose `[` has just been taken. */
  function ParseArray(fl: Flags, h: Handler, ts: seq<Token>, es: seq<Event>): (o: Outcome)
    ensures o.Done? ==> |o.rest| <= |ts|
    decreases |ts|, 3
  {
    var (rest, es) :- Emit(h, ts, es, StartArray);
    var rest := Skip(rest);
    if rest != [] && rest[0].RightBracket? then Emit(h, rest[1..], es, EndArray(0))
    else ParseElements(fl, h, rest, es, 0)
  }

  /** The array from the head of its element loop, with `count` elements behind it. */
  function ParseElements(fl: Flags, h: Handler, ts: seq<Token>, es: seq<Event>, count: nat): (o: Outcome)
    ensures o.Done? ==> |o.rest| < |ts|
    decreases |ts|, 2
  {
    var (rest, es) :- ParseValue(fl, h, ts, es);
    ElementsAfterValue(fl, h, Skip(rest), es, Inc(count))
  }

  /** The array after an element, `count` including that element. */
  function ElementsAfterValue(fl: Flags, h: Handler, ts: seq<Token>, es: seq<Event>, count: nat): (o: Outcome)
    ensures o.Done? ==> |o.rest| < |ts|
    decreases |ts|, 0
  {
    if ts != [] && ts[0].Comma? then
      var rest := Skip(ts[1..]);
      if fl.trailingCommas && rest != [] && rest[0].RightBracket? then Emit(h, rest[1..], es, EndArray(count))
      else ParseElements(fl, h, rest, es, count)
    else if ts != [] && ts[0].RightBracket? then Emit(h, ts[1..], es, EndArray(count))
    else Failed(ArrayMissCommaOrSquareBracket, es)
  }

  // ----- Documents -----

  /** Parse without the iterative flag. */
  function Parse(fl: Flags, h: Handler, ts: seq<Token>): Outcome {
    var ts := Skip(ts);
    if ts == [] then Failed(DocumentEmpty, []) else
    var (rest, es) :- ParseValue(fl, h, ts, []);
    if fl.stopWhenDone then Done(rest, es) else
    var rest := Skip(rest);
    if rest != [] then Failed(DocumentRootNotSingular, es) else Done(rest, es)
  }
}
