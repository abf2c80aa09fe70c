/** GenericSchemaValidator, as far as its document path goes. */
module SchemaValidator {
  import opened Basics
  import opened Decimals
  import opened JsonSyntax
  import opened JsonTree
  import opened SchemaPath
  import P = PointerSyntax

  lemma {:induction false} EscapedMore(stack: Bytes, name: Bytes, i: nat)
    requires i < |name|
    ensures stack + Escaped(name[i..]) == stack + EscapedUnit(name[i]) + Escaped(name[i + 1..])
  {
    assert name[i..][1..] == name[i + 1..];
  }

  // ----- A refusal is final -----

  lemma {:induction false} RefusedTree(judge: Judge, s: State, es: seq<Event>, t: Tree)
    requires !Run(judge, s, es).valid
    ensures Run(judge, s, Accept(es, t)) == Run(judge, s, es)
    decreases t, 1
  {
    match t {
      case Atom(a) => RunOneMore(judge, s, es, Event.Value(a));
      case Text(text) => RunOneMore(judge, s, es, String(text));
      case Array(elements) =>
        RunOneMore(judge, s, es, StartArray);
        RefusedElements(judge, s, es + [StartArray], elements);
        RunOneMore(judge, s, AcceptElements(es + [StartArray], elements), EndArray(|elements| % SIZE_TYPE));
      case Object(members) =>
        RunOneMore(judge, s, es, StartObject);
        RefusedMembers(judge, s, es + [StartObject], members);
        RunOneMore(judge, s, AcceptMembers(es + [StartObject], members), EndObject(|members| % SIZE_TYPE));
    }
  }

  lemma {:induction false} RefusedElements(judge: Judge, s: State, es: seq<Event>, ts: seq<Tree>)
    requires !Run(judge, s, es).valid
    ensures Run(judge, s, AcceptElements(es, ts)) == Run(judge, s, es)
    decreases ts, 0
  {
    if ts != [] {
      RefusedTree(judge, s, es, ts[0]);
      RefusedElements(judge, s, Accept(es, ts[0]), ts[1..]);
    }
  }

  lemma {:induction false} RefusedMembers(judge: Judge, s: State, es: seq<Event>, ms: seq<Member>)
    requires !Run(judge, s, es).valid
    ensures Run(judge, s, AcceptMembers(es, ms)) == Run(judge, s, es)
    decreases ms, 0
  {
    if ms != [] {
      RunOneMore(judge, s, es, Key(ms[0].name));
      RefusedTree(judge, s, es + [Key(ms[0].name)], ms[0].value);
      RefusedMembers(judge, s, Accept(es + [Key(ms[0].name)], ms[0].value), ms[1..]);
    }
  }

  class GenericSchemaValidator {
    const judge: Judge
    var schemaStack: seq<Context>
    var documentStack: Bytes
    var valid: bool
    var asked: seq<Bytes>

    function State(): SchemaPath.State
      reads this
    {
      SchemaPath.State(schemaStack, documentStack, valid, asked)
    }

    constructor (judge: Judge, basePath: Bytes)
      ensures this.judge == judge
      ensures State() == SchemaPath.State([], basePath, true, [])
    {
      this.judge := judge;
      schemaStack, documentStack, valid, asked := [], basePath, true, [];
    }

    /** A question to the schema on top of the stack. */
    method Question() returns (ok: bool)
      requires valid
      modifies this
      ensures State() == Ask(judge, old(State())) && ok == valid
    {
      asked := asked + [documentStack];
      valid := judge(asked);
      ok := valid;
    }

    method PushToken(name: Bytes)
      modifies this
      ensures State() == old(State()).(documentStack := AppendToken(old(documentStack), name))
    {
      var stack := documentStack + [P.SLASH];
      assert name[0..] == name;
      for i := 0 to |name|
        invariant State() == old(State())
        invariant stack + Escaped(name[i..]) == AppendToken(documentStack, name)
      {
        EscapedMore(stack, name, i);
        if name[i] == P.TILDE {
          stack := stack + [P.TILDE, P.ZERO];
        } else if name[i] == P.SLASH {
          stack := stack + [P.TILDE, P.ONE];
        } else {
          stack := stack + [name[i]];
        }
      }
      assert name[|name|..] == [] && Escaped([]) == [] && stack + [] == stack;
      documentStack := stack;
    }

    method PopToken()
      modifies this
      ensures State() == old(State()).(documentStack := RemoveToken(old(documentStack)))
    {
      var more := |documentStack| > 0;
      while more
        invariant State() == old(State()).(documentStack := documentStack)
        invariant more ==> |documentStack| > 0 && RemoveToken(documentStack) == RemoveToken(old(documentStack))
        invariant !more ==> documentStack == RemoveToken(old(documentStack))
        decreases |documentStack|, more
      {
        var last := documentStack[|documentStack| - 1];
        documentStack := documentStack[..|documentStack| - 1];
        more := last != P.SLASH && |documentStack| > 0;
      }
    }

    method Begin() returns (ok: bool)
      requires valid
      modifies this
      ensures State() == BeginValue(judge, old(State())) && ok == valid
      ensures ok ==> |schemaStack| == old(|schemaStack|) + 1
    {
      ok := true;
      if |schemaStack| == 0 {
        schemaStack := [Context(false, 0)];
      } else {
        var top := schemaStack[|schemaStack| - 1];
        if top.inArray {
          PushToken(Numeral(top.elementIndex));
          ok := Question();
          if !ok {
            return;
          }
          schemaStack := schemaStack[..|schemaStack| - 1] + [top.(elementIndex := Inc(top.elementIndex)), Context(false, 0)];
        } else {
          schemaStack := schemaStack + [Context(false, 0)];
        }
      }
    }

    method End() returns (ok: bool)
      requires valid && |schemaStack| > 0
      modifies this
      ensures State() == EndValue(judge, old(State())) && ok == valid
      ensures ok ==> |schemaStack| == old(|schemaStack|) - 1
    {
      ok := Question();
      if !ok {
        return;
      }
      schemaStack := schemaStack[..|schemaStack| - 1];
      if |schemaStack| > 0 && schemaStack[|schemaStack| - 1].inArray {
        ok := Question();
        if !ok {
          return;
        }
      }
      PopToken();
    }

    /** Null, Bool, the numbers and String alike. */
    method Value(e: Event) returns (ok: bool)
      requires e.Value? || e.String?
      modifies this
      ensures State() == Step(judge, old(State()), e) && ok == valid
      ensures ok ==> |schemaStack| == old(|schemaStack|)
    {
      if !valid {
        return false;
      }
      ok := Begin();
      if ok {
        ok := Question();
      }
      if ok {
        ok := End();
      }
    }

    method StartObject() returns (ok: bool)
      modifies this
      ensures State() == Step(judge, old(State()), Event.StartObject) && ok == valid
      ensures ok ==> |schemaStack| == old(|schemaStack|) + 1
    {
      if !valid {
        return false;
      }
      ok := Begin();
      if ok {
        ok := Question();
      }
    }

    method Key(name: Bytes) returns (ok: bool)
      modifies this
      ensures State() == Step(judge, old(State()), Event.Key(name)) && ok == valid
      ensures ok ==> |schemaStack| == old(|schemaStack|)
    {
      if !valid {
        return false;
      }
      PushToken(name);
      ok := Question();
    }

    method EndObject(memberCount: nat) returns (ok: bool)
      requires valid ==> |schemaStack| > 0
      modifies this
      ensures State() == Step(judge, old(State()), Event.EndObject(memberCount)) && ok == valid
      ensures ok ==> |schemaStack| == old(|schemaStack|) - 1
    {
      if !valid {
        return false;
      }
      ok := Question();
      if ok {
        ok := End();
      }
    }

    method StartArray() returns (ok: bool)
      modifies this
      ensures State() == Step(judge, old(State()), Event.StartArray) && ok == valid
      ensures ok ==> |schemaStack| == old(|schemaStack|) + 1
    {
      if !valid {
        return false;
      }
      ok := Begin();
      if ok {
        ok := Question();
      }
      if ok {
        schemaStack := schemaStack[..|schemaStack| - 1] + [Context(true, 0)];
      }
    }

    method EndArray(elementCount: nat) returns (ok: bool)
      requires valid ==> |schemaStack| > 0
      modifies this
      ensures State() == Step(judge, old(State()), Event.EndArray(elementCount)) && ok == valid
      ensures ok ==> |schemaStack| == old(|schemaStack|) - 1
    {
      if !valid {
        return false;
      }
      schemaStack := schemaStack[..|schemaStack| - 1] + [schemaStack[|schemaStack| - 1].(inArray := false)];
      ok := Question();
      if ok {
        ok := End();
      }
    }

    // ----- A document announces itself to the validator -----

    /** GenericValue::Accept. It stops at the first refusal. */
    method AcceptTree(ghost s: SchemaPath.State, ghost es: seq<Event>, t: Tree) returns (ok: bool)
      requires valid && State() == Run(judge, s, es)
      modifies this
      ensures State() == Run(judge, s, Accept(es, t)) && ok == valid
      ensures ok ==> |schemaStack| == old(|schemaStack|)
      decreases t, 1
    {
      match t {
        case Atom(a) =>
          RunOneMore(judge, s, es, Event.Value(a));
          ok := Value(Event.Value(a));
        case Text(text) =>
          RunOneMore(judge, s, es, String(text));
          ok := Value(String(text));
        case Array(elements) =>
          ok := AcceptArray(s, es, elements);
        case Object(members) =>
          ok := AcceptObject(s, es, members);
      }
    }

    method AcceptArray(ghost s: SchemaPath.State, ghost es: seq<Event>, elements: seq<Tree>) returns (ok: bool)
      requires valid && State() == Run(judge, s, es)
      modifies this
      ensures State() == Run(judge, s, Accept(es, Array(elements))) && ok == valid
      ensures ok ==> |schemaStack| == old(|schemaStack|)
      decreases elements, 2
    {
      ghost var log := es + [Event.StartArray];
      ghost var all := AcceptElements(log, elements);
      RunOneMore(judge, s, es, Event.StartArray);
      RunOneMore(judge, s, all, Event.EndArray(|elements| % SIZE_TYPE));
      ok := StartArray();
      if !ok {
        RefusedElements(judge, s, log, elements);
        return;
      }
      for k := 0 to |elements|
        invariant valid && State() == Run(judge, s, log) && |schemaStack| == old(|schemaStack|) + 1
        invariant AcceptElements(log, elements[k..]) == all
      {
        assert elements[k..][1..] == elements[k + 1..];
        ok := AcceptTree(s, log, elements[k]);
        log := Accept(log, elements[k]);
        if !ok {
          RefusedElements(judge, s, log, elements[k + 1..]);
          return;
        }
      }
      ok := EndArray(|elements| % SIZE_TYPE);
    }

    method AcceptObject(ghost s: SchemaPath.State, ghost es: seq<Event>, members: seq<Member>) returns (ok: bool)
      requires valid && State() == Run(judge, s, es)
      modifies this
      ensures State() == Run(judge, s, Accept(es, Object(members))) && ok == valid
      ensures ok ==> |schemaStack| == old(|schemaStack|)
      decreases members, 2
    {
      ghost var log := es + [Event.StartObject];
      ghost var all := AcceptMembers(log, members);
      RunOneMore(judge, s, es, Event.StartObject);
      RunOneMore(judge, s, all, Event.EndObject(|members| % SIZE_TYPE));
      ok := StartObject();
      if !ok {
        RefusedMembers(judge, s, log, members);
        return;
      }
      for k := 0 to |members|
        invariant valid && State() == Run(judge, s, log) && |schemaStack| == old(|schemaStack|) + 1
        invariant AcceptMembers(log, members[k..]) == all
      {
        assert members[k..][1..] == members[k + 1..];
        ok := AcceptMember(s, log, members[k]);
        log := Accept(log + [Event.Key(members[k].name)], members[k].value);
        if !ok {
          RefusedMembers(judge, s, log, members[k + 1..]);
          return;
        }
      }
      ok := EndObject(|members| % SIZE_TYPE);
    }

    method AcceptMember(ghost s: SchemaPath.State, ghost es: seq<Event>, m: Member) returns (ok: bool)
      requires valid && State() == Run(judge, s, es)
      modifies this
      ensures State() == Run(judge, s, Accept(es + [Event.Key(m.name)], m.value)) && ok == valid
      ensures ok ==> |schemaStack| == old(|schemaStack|)
      decreases m, 2
    {
      RunOneMore(judge, s, es, Event.Key(m.name));
      ok := Key(m.name);
      if !ok {
        RefusedTree(judge, s, es + [Event.Key(m.name)], m.value);
        return;
      }
      ok := AcceptTree(s, es + [Event.Key(m.name)], m.value);
    }

    /** A whole document is valid if and only if the schemas accept every question about it. Question
        after question is about its places in their order, each put at the path of its value unless a
        count of elements has wrapped on the way; when one is refused, it is the last, and the pointer
        of the stack resolves to the very value that was refused if and only if that can be found. */
    method Validate(ghost base: Path, t: Tree) returns (ok: bool)
      requires State() == Fresh(base)
      modifies this
      ensures ok == valid && (ok <==> Accepts(judge, Questions(t, base)))
      ensures !ok ==> 0 < |asked| <= |Questions(t, base)| && asked == Questions(t, base)[..|asked|] && !judge(asked)
      ensures !ok ==> forall n | 1 <= n < |asked| :: judge(asked[..n])
      ensures State() == Run(judge, Fresh(base), Events(t))
      ensures Located(t, base, State(), Order(t))
    {
      ok := AcceptTree(Fresh(base), [], t);
      VerdictIsTheJudges(judge, base, t);
      ghost var all := Questions(t, base);
      if !ok {
        forall n | 1 <= n < |asked| ensures judge(asked[..n]) {
          assert asked[..n] == all[..n];
        }
      }
      RunIsLocated(judge, base, t);
    }

    /** The pointer to the value that is being judged. */
    method GetInvalidDocumentPointer() returns (pointer: P.Pointer)
      ensures pointer == if |documentStack| == 0 then P.Valid([]) else P.Parse(documentStack)
    {
      pointer := if |documentStack| == 0 then P.Valid([]) else P.Parse(documentStack);
    }
  }
}
