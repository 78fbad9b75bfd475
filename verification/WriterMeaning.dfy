/** What the writers print when a value hands its events to them: the text of the value. */
module WriterMeaning {
  import opened Bytes
  import opened Sax
  import opened Strings
  import opened Numbers
  import opened Dom
  import opened Layout
  import opened Writer

  // ---------------------------------------------------------------- A value hands its events to a writer

  lemma {:induction false} WriteConcat(st: Style, w: State, a: seq<Event>, b: seq<Event>)
    requires WriteAll(st, w, a).Some?
    ensures WriteAll(st, w, a + b) == WriteAll(st, WriteAll(st, w, a).value, b)
    decreases |b|
  {
    if b == [] {
      assert a + b == a;
    } else {
      assert (a + b)[..|a + b| - 1] == a + b[..|b| - 1];
      WriteConcat(st, w, a, b[..|b| - 1]);
    }
  }

  lemma WriteOne(st: Style, w: State, e: Event)
    ensures WriteAll(st, w, [e]) == Write(st, w, e)
  {
    assert [e][..0] == [];
  }

  lemma WriteThen(st: Style, w: State, a: seq<Event>, w1: State, b: seq<Event>, w2: State)
    requires WriteAll(st, w, a) == Some(w1) && WriteAll(st, w1, b) == Some(w2)
    ensures WriteAll(st, w, a + b) == Some(w2)
  {
    WriteConcat(st, w, a, b);
  }

  lemma EventConcat(a: seq<Event>, b: seq<Event>, c: seq<Event>)
    ensures a + (b + c) == a + b + c
  {
  }

  /** The state after a whole value. */
  function Wrote(st: Style, w: State, text: bytes): State {
    State(w.out + Lead(st.format, w.levels) + text, Counted(w.levels), true)
  }

  lemma {:induction false} WriteValue(st: Style, w: State, v: Value)
    requires WellFormed(v) && Printable(st.target, v) && AllowsValue(w.levels, w.hasRoot, false)
    ensures WriteAll(st, w, Accept(v)) == Some(Wrote(st, w, Print(st, v, |w.levels|)))
    decreases v, 1
  {
    match v {
      case ArrayValue(elements) =>
        WriteArray(st, w, elements);
      case ObjectValue(members) =>
        WriteObject(st, w, members);
      case NumberValue(word, flags) =>
        WriteNumber(st, w, v);
      case NullValue =>
        WriteOne(st, w, Null);
      case BoolValue(b) =>
        WriteOne(st, w, Bool(b));
      case StringValue(str) =>
        WriteOne(st, w, String(str));
    }
  }

  lemma WriteNumber(st: Style, w: State, v: Value)
    requires v.NumberValue? && WellFormed(v) && AllowsValue(w.levels, w.hasRoot, false)
    ensures WriteAll(st, w, Accept(v)) == Some(Wrote(st, w, DecimalInt(Numeric(v.word, v.flags))))
  {
    var e := NumberEvent(v.word, v.flags);
    NumberEventIs(Numeric(v.word, v.flags));
    assert Accept(v) == [e];
    WriteOne(st, w, e);
  }

  function Bracket(open: Event): byte {
    if open.StartArray? then LEFT_BRACKET else LEFT_CURLY
  }

  /** The state after a container is opened. */
  function Opened(st: Style, w: State, open: Event): State {
    State(w.out + Lead(st.format, w.levels) + [Bracket(open)], Counted(w.levels) + [Level(open.StartArray?, 0)], true)
  }

  lemma Bracketed(st: Style, w: State, open: Event, inner: seq<Event>, text: bytes)
    requires (open.StartArray? || open.StartObject?) && AllowsValue(w.levels, w.hasRoot, false)
    requires var start := Opened(st, w, open);
      WriteAll(st, start, inner) == Some(State(start.out + text, Counted(w.levels), true))
    ensures WriteAll(st, w, [open] + inner) == Some(Wrote(st, w, [Bracket(open)] + text))
  {
    var start := Opened(st, w, open);
    WriteOne(st, w, open);
    WriteThen(st, w, [open], start, inner, State(start.out + text, Counted(w.levels), true));
    TextConcat(w.out + Lead(st.format, w.levels), [Bracket(open)], text);
  }

  lemma {:induction false} WriteArray(st: Style, w: State, elements: seq<Value>)
    requires WellFormed(ArrayValue(elements)) && Printable(st.target, ArrayValue(elements))
    requires AllowsValue(w.levels, w.hasRoot, false)
    ensures WriteAll(st, w, Accept(ArrayValue(elements)))
      == Some(Wrote(st, w, Print(st, ArrayValue(elements), |w.levels|)))
    decreases elements, 2
  {
    var start := Opened(st, w, StartArray);
    WriteElements(st, start, Counted(w.levels), elements, 0);
    var text := PrintElements(st, elements, 0, |w.levels| + 1);
    Bracketed(st, w, StartArray, GenerateElements(elements, 0, false) + [EndArray(|elements|)], text);
    EventConcat([StartArray], GenerateElements(elements, 0, false), [EndArray(|elements|)]);
  }

  /** The elements from the `i`-th on and the end of the array, `outer` being the levels around it. */
  lemma {:induction false} WriteElements(st: Style, w: State, outer: seq<Level>, elements: seq<Value>, i: nat)
    requires i <= |elements| && w.levels == outer + [Level(true, i)] && w.hasRoot
    requires forall k | 0 <= k < |elements| :: WellFormed(elements[k]) && Printable(st.target, elements[k])
    ensures WriteAll(st, w, GenerateElements(elements, i, false) + [EndArray(|elements|)])
      == Some(State(w.out + PrintElements(st, elements, i, |outer| + 1), outer, true))
    decreases elements, 1, |elements| - i
  {
    if i == |elements| {
      WriteOne(st, w, EndArray(|elements|));
      assert GenerateElements(elements, i, false) + [EndArray(|elements|)] == [EndArray(|elements|)];
      assert w.levels[..|outer|] == outer;
    } else {
      WriteValue(st, w, elements[i]);
      var text := Print(st, elements[i], |outer| + 1);
      var w1 := Wrote(st, w, text);
      assert w1.levels == outer + [Level(true, i + 1)];
      WriteElements(st, w1, outer, elements, i + 1);
      var own, rest := Accept(elements[i]), GenerateElements(elements, i + 1, false);
      WriteThen(st, w, own, w1, rest + [EndArray(|elements|)],
        State(w1.out + PrintElements(st, elements, i + 1, |outer| + 1), outer, true));
      EventConcat(own, rest, [EndArray(|elements|)]);
      TextConcat(w.out, Lead(st.format, w.levels), text);
      TextConcat(w.out, PrintElement(st, elements, i, |outer| + 1), PrintElements(st, elements, i + 1, |outer| + 1));
    }
  }

  lemma {:induction false} WriteObject(st: Style, w: State, members: seq<Member>)
    requires WellFormed(ObjectValue(members)) && Printable(st.target, ObjectValue(members))
    requires AllowsValue(w.levels, w.hasRoot, false)
    ensures WriteAll(st, w, Accept(ObjectValue(members)))
      == Some(Wrote(st, w, Print(st, ObjectValue(members), |w.levels|)))
    decreases members, 2
  {
    var start := Opened(st, w, StartObject);
    WriteMembers(st, start, Counted(w.levels), members, 0);
    var text := PrintMembers(st, members, 0, |w.levels| + 1);
    Bracketed(st, w, StartObject, GenerateMembers(members, 0, false) + [EndObject(|members|)], text);
    ObjectParts(st, members, |w.levels|, text);
  }

  lemma ObjectParts(st: Style, members: seq<Member>, depth: nat, text: bytes)
    requires Printable(st.target, ObjectValue(members)) && text == PrintMembers(st, members, 0, depth + 1)
    ensures Accept(ObjectValue(members)) ==
      [StartObject] + (GenerateMembers(members, 0, false) + [EndObject(|members|)])
    ensures Print(st, ObjectValue(members), depth) == [Bracket(StartObject)] + text
  {
    EventConcat([StartObject], GenerateMembers(members, 0, false), [EndObject(|members|)]);
  }

  lemma WriteName(st: Style, w: State, outer: seq<Level>, i: nat, name: bytes)
    requires w.levels == outer + [Level(false, 2 * i)] && w.hasRoot && Writable(st.target, name)
    ensures WriteAll(st, w, [Key(name)]) == Some(State(
      w.out + (Separator(i > 0) + Newline(st.format, |outer| + 1)) + Quoted(st.target, name),
      outer + [Level(false, 2 * i + 1)], true))
  {
    WriteOne(st, w, Key(name));
    assert Counted(w.levels) == outer + [Level(false, 2 * i + 1)];
  }

  lemma MemberConcat(out: bytes, a: bytes, b: bytes, c: bytes, d: bytes, e: bytes, f: bytes)
    ensures out + (a + b) + c + (d + e) + f == out + (a + b + c + d + e + f)
  {
  }

  /** One member: its name and its value. */
  lemma {:induction false} WriteMember(st: Style, w: State, outer: seq<Level>, members: seq<Member>, i: nat)
    requires i < |members| && w.levels == outer + [Level(false, 2 * i)] && w.hasRoot
    requires WellFormed(members[i].value)
    requires Writable(st.target, members[i].name) && Printable(st.target, members[i].value)
    ensures WriteAll(st, w, [Key(members[i].name)] + Accept(members[i].value)) == Some(State(
      w.out + PrintMember(st, members, i, |outer| + 1), outer + [Level(false, 2 * (i + 1))], true))
    decreases members, 0, 0
  {
    var m := members[i];
    WriteName(st, w, outer, i, m.name);
    var w1 := State(w.out + (Separator(i > 0) + Newline(st.format, |outer| + 1)) + Quoted(st.target, m.name),
      outer + [Level(false, 2 * i + 1)], true);
    WriteValue(st, w1, m.value);
    var text := Print(st, m.value, |outer| + 1);
    var w2 := Wrote(st, w1, text);
    assert w2.levels == outer + [Level(false, 2 * (i + 1))];
    WriteThen(st, w, [Key(m.name)], w1, Accept(m.value), w2);
    MemberConcat(w.out, Separator(i > 0), Newline(st.format, |outer| + 1), Quoted(st.target, m.name),
      [COLON], ColonGap(st.format), text);
  }

  /** The end of an object whose members are all written. */
  lemma WriteObjectEnd(st: Style, w: State, outer: seq<Level>, n: nat)
    requires w.levels == outer + [Level(false, 2 * n)] && w.hasRoot
    ensures WriteAll(st, w, [EndObject(n)]) == Some(State(
      w.out + ((if n == 0 then [] else Newline(st.format, |outer|)) + [RIGHT_CURLY]), outer, true))
  {
    WriteOne(st, w, EndObject(n));
    assert w.levels[..|outer|] == outer;
  }

  lemma {:induction false} WriteMembers(st: Style, w: State, outer: seq<Level>, members: seq<Member>, i: nat)
    requires i <= |members| && w.levels == outer + [Level(false, 2 * i)] && w.hasRoot
    requires forall k | 0 <= k < |members| :: WellFormed(members[k].value)
    requires forall k | 0 <= k < |members| ::
      Writable(st.target, members[k].name) && Printable(st.target, members[k].value)
    ensures WriteAll(st, w, GenerateMembers(members, i, false) + [EndObject(|members|)])
      == Some(State(w.out + PrintMembers(st, members, i, |outer| + 1), outer, true))
    decreases members, 1, |members| - i
  {
    var end := [EndObject(|members|)];
    if i == |members| {
      WriteObjectEnd(st, w, outer, i);
      assert [] + end == end;
    } else {
      WriteMember(st, w, outer, members, i);
      var text := PrintMember(st, members, i, |outer| + 1);
      var w1 := State(w.out + text, outer + [Level(false, 2 * (i + 1))], true);
      WriteMembers(st, w1, outer, members, i + 1);
      var own, rest := [Key(members[i].name)] + Accept(members[i].value), GenerateMembers(members, i + 1, false);
      var others := PrintMembers(st, members, i + 1, |outer| + 1);
      WriteThen(st, w, own, w1, rest + end, State(w1.out + others, outer, true));
      EventConcat(own, rest, end);
      TextConcat(w.out, text, others);
    }
  }

  /** A writer that a value hands its events to holds exactly the value's text, and knows that it is complete. */
  lemma AcceptPrints(st: Style, v: Value)
    requires WellFormed(v) && Printable(st.target, v)
    ensures WriteAll(st, State([], [], false), Accept(v)) == Some(State(Print(st, v, 0), [], true))
  {
    WriteValue(st, State([], [], false), v);
    assert [] + Lead(st.format, []) + Print(st, v, 0) == Print(st, v, 0);
  }

  // ---------------------------------------------------------------- What cannot be written

  /** The event is no double, and its string, if it has one, can be written to the target. */
  ghost predicate Fit(target: Target, e: Event) {
    !e.Double? && (e.String? ==> Writable(target, e.str)) && (e.Key? ==> Writable(target, e.name))
  }

  ghost predicate AllFit(target: Target, events: seq<Event>) {
    forall e | e in events :: Fit(target, e)
  }

  lemma {:induction false} WrittenFit(st: Style, w: State, events: seq<Event>)
    requires WriteAll(st, w, events).Some?
    ensures AllFit(st.target, events)
    decreases |events|
  {
    if events != [] {
      var last := |events| - 1;
      WrittenFit(st, w, events[..last]);
      WrittenIsFit(st, WriteAll(st, w, events[..last]).value, events[last]);
      forall e | e in events
        ensures Fit(st.target, e)
      {
        assert e in events[..last] || e == events[last];
      }
    }
  }

  lemma WrittenIsFit(st: Style, w: State, e: Event)
    requires Write(st, w, e).Some?
    ensures Fit(st.target, e)
  {
  }

  lemma DoubleIsNotFit(target: Target, literal: bytes)
    ensures !AllFit(target, Accept(DoubleValue(literal)))
  {
    assert Double(literal) in Accept(DoubleValue(literal));
  }

  lemma {:induction false} FitPrints(target: Target, v: Value)
    requires AllFit(target, Accept(v))
    ensures Printable(target, v)
    decreases v, 1
  {
    match v {
      case ArrayValue(elements) => ElementsFit(target, elements, 0);
      case ObjectValue(members) => MembersFit(target, members, 0);
      case StringValue(str) => assert String(str) in Accept(v);
      case DoubleValue(literal) => DoubleIsNotFit(target, literal);
      case _ =>
    }
  }

  lemma {:induction false} ElementsFit(target: Target, elements: seq<Value>, i: nat)
    requires i <= |elements| && AllFit(target, GenerateElements(elements, i, false))
    ensures forall k | i <= k < |elements| :: Printable(target, elements[k])
    decreases elements, 0, |elements| - i
  {
    if i < |elements| {
      var own, rest := Generate(elements[i], false), GenerateElements(elements, i + 1, false);
      assert forall e | e in own :: e in own + rest;
      assert forall e | e in rest :: e in own + rest;
      FitPrints(target, elements[i]);
      ElementsFit(target, elements, i + 1);
    }
  }

  lemma {:induction false} MembersFit(target: Target, members: seq<Member>, i: nat)
    requires i <= |members| && AllFit(target, GenerateMembers(members, i, false))
    ensures forall k | i <= k < |members| ::
      Writable(target, members[k].name) && Printable(target, members[k].value)
    decreases members, 0, |members| - i
  {
    if i < |members| {
      var name, own := Key(members[i].name), Generate(members[i].value, false);
      var rest := GenerateMembers(members, i + 1, false);
      assert name in [name] + own + rest;
      assert forall e | e in own :: e in [name] + own + rest;
      assert forall e | e in rest :: e in [name] + own + rest;
      FitPrints(target, members[i].value);
      MembersFit(target, members, i + 1);
    }
  }

  /** A new writer takes all the events of a value exactly when the value can be printed. */
  lemma WritesExactly(st: Style, v: Value)
    requires WellFormed(v)
    ensures WriteAll(st, State([], [], false), Accept(v)).Some? <==> Printable(st.target, v)
  {
    if Printable(st.target, v) {
      AcceptPrints(st, v);
    } else if WriteAll(st, State([], [], false), Accept(v)).Some? {
      WrittenFit(st, State([], [], false), Accept(v));
      FitPrints(st.target, v);
    }
  }
}
