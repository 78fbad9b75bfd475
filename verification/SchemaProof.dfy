/** The streaming validator accepts the events of a value exactly when the value satisfies the schema. */
module SchemaProof {
  import opened Bytes
  import opened Sax
  import opened Dom
  import opened Schema
  import opened SchemaValidator

  // ---------------------------------------------------------------- Running

  lemma {:induction false} RunConcat(v: Validator, a: seq<Event>, b: seq<Event>)
    ensures Run(v, a + b) == Run(Run(v, a), b)
    decreases |a|
  {
    if a == [] {
      assert a + b == b;
    } else {
      assert (a + b)[1..] == a[1..] + b;
      RunConcat(Step(v, a[0]), a[1..], b);
    }
  }

  lemma RunOne(v: Validator, e: Event)
    ensures Run(v, [e]) == Step(v, e)
  {
    assert [e][1..] == [];
  }

  /** A refusal is final. */
  lemma {:induction false} RunRefused(v: Validator, events: seq<Event>)
    requires !v.valid
    ensures Run(v, events) == v
    decreases |events|
  {
    if events != [] {
      RunRefused(v, events[1..]);
    }
  }

  lemma StepRoot(v: Validator, e: Event)
    ensures Step(v, e).root == v.root
  {
  }

  lemma {:induction false} RunRoot(v: Validator, events: seq<Event>)
    ensures Run(v, events).root == v.root
    decreases |events|
  {
    if events != [] {
      StepRoot(v, events[0]);
      RunRoot(Step(v, events[0]), events[1..]);
    }
  }

  // ---------------------------------------------------------------- Passing events on

  /** All validators belong to schemas below `height`. */
  ghost predicate Lower(validators: seq<Validator>, height: nat) {
    forall i | 0 <= i < |validators| :: Height(validators[i].root) < height
  }

  lemma {:induction false} PassOnAt(validators: seq<Validator>, e: Event, height: nat, i: nat)
    requires Lower(validators, height) && i < |validators|
    ensures PassOn(validators, e, height)[i] == Step(validators[i], e)
    decreases |validators|
  {
    var last := |validators| - 1;
    if i < last {
      PassOnAt(validators[..last], e, height, i);
    }
  }

  lemma PassOnLower(validators: seq<Validator>, e: Event, height: nat)
    requires Lower(validators, height)
    ensures Lower(PassOn(validators, e, height), height)
  {
    forall i | 0 <= i < |validators|
      ensures Height(PassOn(validators, e, height)[i].root) < height
    {
      PassOnAt(validators, e, height, i);
      StepRoot(validators[i], e);
    }
  }

  /** Parallel validators after a history. */
  function Fed(validators: seq<Validator>, events: seq<Event>, height: nat): (r: seq<Validator>)
    ensures |r| == |validators|
    decreases |events|
  {
    if events == [] then validators else Fed(PassOn(validators, events[0], height), events[1..], height)
  }

  lemma {:induction false} FedAt(validators: seq<Validator>, events: seq<Event>, height: nat, i: nat)
    requires Lower(validators, height) && i < |validators|
    ensures Fed(validators, events, height)[i] == Run(validators[i], events)
    decreases |events|
  {
    if events != [] {
      PassOnAt(validators, events[0], height, i);
      PassOnLower(validators, events[0], height);
      FedAt(PassOn(validators, events[0], height), events[1..], height, i);
    }
  }

  lemma {:induction false} FedConcat(validators: seq<Validator>, a: seq<Event>, b: seq<Event>, height: nat)
    ensures Fed(validators, a + b, height) == Fed(Fed(validators, a, height), b, height)
    decreases |a|
  {
    if a == [] {
      assert a + b == b;
    } else {
      assert (a + b)[1..] == a[1..] + b;
      FedConcat(PassOn(validators, a[0], height), a[1..], b, height);
    }
  }

  lemma FedOne(validators: seq<Validator>, e: Event, height: nat)
    ensures Fed(validators, [e], height) == PassOn(validators, e, height)
  {
    assert [e][1..] == [];
  }

  /** The contexts after a history that opened and closed nothing of theirs. */
  function Passed(contexts: seq<Context>, events: seq<Event>, height: nat): (r: seq<Context>)
    ensures |r| == |contexts|
    decreases |events|
  {
    if events == [] then contexts else Passed(Forward(contexts, events[0], height), events[1..], height)
  }

  lemma ForwardLast(outer: seq<Context>, top: Context, e: Event, height: nat)
    ensures Forward(outer + [top], e, height)
      == Forward(outer, e, height) + [top.(validators := PassOn(top.validators, e, height))]
  {
    assert (outer + [top])[..|outer|] == outer;
  }

  lemma {:induction false} PassedLast(outer: seq<Context>, top: Context, events: seq<Event>, height: nat)
    ensures Passed(outer + [top], events, height)
      == Passed(outer, events, height) + [top.(validators := Fed(top.validators, events, height))]
    decreases |events|
  {
    if events != [] {
      ForwardLast(outer, top, events[0], height);
      PassedLast(Forward(outer, events[0], height),
        top.(validators := PassOn(top.validators, events[0], height)), events[1..], height);
    }
  }

  lemma {:induction false} PassedConcat(contexts: seq<Context>, a: seq<Event>, b: seq<Event>, height: nat)
    ensures Passed(contexts, a + b, height) == Passed(Passed(contexts, a, height), b, height)
    decreases |a|
  {
    if a == [] {
      assert a + b == b;
    } else {
      assert (a + b)[1..] == a[1..] + b;
      PassedConcat(Forward(contexts, a[0], height), a[1..], b, height);
    }
  }

  lemma PassedOne(contexts: seq<Context>, e: Event, height: nat)
    ensures Passed(contexts, [e], height) == Forward(contexts, e, height)
  {
    assert [e][1..] == [];
  }

  // ---------------------------------------------------------------- What the single checks mean

  /** The event of a value that is no container. */
  function LeafEvent(x: Value): Event
    requires !x.ArrayValue? && !x.ObjectValue?
  {
    Accept(x)[0]
  }

  lemma IntegerAllowed(s: Schema, e: Event, i: int)
    requires Compiled(s) && IsIntegerEvent(e, i)
    ensures StartAllowed(s, e) <==>
      (s.types.integer || s.types.number) && AboveMinimum(s.minimum, i) && BelowMaximum(s.maximum, i)
  {
  }

  /** The check at the start of a leaf is what the schema asks of the leaf by itself. */
  lemma LeafAllowed(s: Schema, x: Value)
    requires Compiled(s) && WellFormed(x) && !x.ArrayValue? && !x.ObjectValue?
    ensures Accept(x) == [LeafEvent(x)] && Starts(LeafEvent(x))
    ensures !LeafEvent(x).StartArray? && !LeafEvent(x).StartObject?
    ensures StartAllowed(s, LeafEvent(x)) == Local(s, x)
  {
    if x.NumberValue? {
      var i := Numeric(x.word, x.flags);
      NumberEventIs(i);
      IntegerAllowed(s, LeafEvent(x), i);
    }
  }

  ghost predicate Agreeing(schemas: seq<Schema>, x: Value, verdicts: seq<bool>) {
    |verdicts| == |schemas| && forall i | 0 <= i < |schemas| :: verdicts[i] == Satisfies(schemas[i], x)
  }

  lemma AgreeingSplit(a: seq<Schema>, b: seq<Schema>, x: Value, verdicts: seq<bool>)
    requires Agreeing(a + b, x, verdicts)
    ensures Agreeing(a, x, verdicts[..|a|]) && Agreeing(b, x, verdicts[|a|..])
  {
    forall i | 0 <= i < |a|
      ensures verdicts[..|a|][i] == Satisfies(a[i], x)
    {
      assert (a + b)[i] == a[i];
    }
    forall i | 0 <= i < |b|
      ensures verdicts[|a|..][i] == Satisfies(b[i], x)
    {
      assert (a + b)[|a| + i] == b[i];
    }
  }

  lemma AllAgree(schemas: seq<Schema>, x: Value, verdicts: seq<bool>)
    requires Agreeing(schemas, x, verdicts)
    ensures AllTrue(verdicts) <==> AllOf(schemas, x)
  {
  }

  lemma AnyAgrees(schemas: seq<Schema>, x: Value, verdicts: seq<bool>)
    requires Agreeing(schemas, x, verdicts)
    ensures AnyTrue(verdicts) <==> AnyOf(schemas, x)
  {
    if AnyTrue(verdicts) {
      var i: nat :| i < |verdicts| && verdicts[i];
      assert Satisfies(schemas[i], x);
    }
    if AnyOf(schemas, x) {
      var i: nat :| i < |schemas| && Satisfies(schemas[i], x);
      assert verdicts[i];
    }
  }

  lemma OneTrueIsOne(schemas: seq<Schema>, x: Value, verdicts: seq<bool>, i: nat)
    requires Agreeing(schemas, x, verdicts) && i < |schemas|
    ensures (verdicts[i] && forall j | 0 <= j < |verdicts| && j != i :: !verdicts[j])
      <==> (Satisfies(schemas[i], x) && forall j | 0 <= j < |schemas| && j != i :: !Satisfies(schemas[j], x))
  {
  }

  lemma OneAgrees(schemas: seq<Schema>, x: Value, verdicts: seq<bool>)
    requires Agreeing(schemas, x, verdicts)
    ensures OneTrue(verdicts) <==> ExactlyOne(schemas, x)
  {
    forall i: nat | i < |schemas|
      ensures (verdicts[i] && forall j | 0 <= j < |verdicts| && j != i :: !verdicts[j])
        <==> (Satisfies(schemas[i], x) && forall j | 0 <= j < |schemas| && j != i :: !Satisfies(schemas[j], x))
    {
      OneTrueIsOne(schemas, x, verdicts, i);
    }
  }

  /** The slots of the four kinds of parallel validators, as parts of the verdicts. */
  lemma SlotsAgree(s: Schema, x: Value, verdicts: seq<bool>)
    requires Agreeing(Parallel(s), x, verdicts)
    ensures var a, b := |s.allOf|, |s.allOf| + |s.anyOf|;
      var c := b + |s.oneOf|;
      && Agreeing(s.allOf, x, verdicts[..a]) && Agreeing(s.anyOf, x, verdicts[a..b])
      && Agreeing(s.oneOf, x, verdicts[b..c])
      && (s.not_.Some? ==> verdicts[c] == Satisfies(s.not_.value, x))
  {
    var a, b := |s.allOf|, |s.allOf| + |s.anyOf|;
    var c := b + |s.oneOf|;
    var rest := if s.not_.Some? then [s.not_.value] else [];
    AgreeingSplit(s.allOf + s.anyOf + s.oneOf, rest, x, verdicts);
    AgreeingSplit(s.allOf + s.anyOf, s.oneOf, x, verdicts[..c]);
    AgreeingSplit(s.allOf, s.anyOf, x, verdicts[..c][..b]);
    assert verdicts[..c][..b][..a] == verdicts[..a] && verdicts[..c][..b][a..] == verdicts[a..b];
    assert verdicts[..c][b..] == verdicts[b..c];
    if s.not_.Some? {
      assert verdicts[c..][0] == verdicts[c];
      assert rest[0] == s.not_.value;
    }
  }

  lemma AllOfSlots(s: Schema, x: Value, verdicts: seq<bool>)
    requires Agreeing(Parallel(s), x, verdicts)
    ensures AllTrue(verdicts[..|s.allOf|]) <==> AllOf(s.allOf, x)
  {
    SlotsAgree(s, x, verdicts);
    AllAgree(s.allOf, x, verdicts[..|s.allOf|]);
  }

  lemma AnyOfSlots(s: Schema, x: Value, verdicts: seq<bool>)
    requires Agreeing(Parallel(s), x, verdicts)
    ensures AnyTrue(verdicts[|s.allOf|..|s.allOf| + |s.anyOf|]) <==> AnyOf(s.anyOf, x)
  {
    SlotsAgree(s, x, verdicts);
    AnyAgrees(s.anyOf, x, verdicts[|s.allOf|..|s.allOf| + |s.anyOf|]);
  }

  lemma OneOfSlots(s: Schema, x: Value, verdicts: seq<bool>)
    requires Agreeing(Parallel(s), x, verdicts)
    ensures var b := |s.allOf| + |s.anyOf|;
      OneTrue(verdicts[b..b + |s.oneOf|]) <==> ExactlyOne(s.oneOf, x)
  {
    var b := |s.allOf| + |s.anyOf|;
    SlotsAgree(s, x, verdicts);
    OneAgrees(s.oneOf, x, verdicts[b..b + |s.oneOf|]);
  }

  lemma NotSlot(s: Schema, x: Value, verdicts: seq<bool>)
    requires Agreeing(Parallel(s), x, verdicts) && s.not_.Some?
    ensures verdicts[|s.allOf| + |s.anyOf| + |s.oneOf|] == Satisfies(s.not_.value, x)
  {
    SlotsAgree(s, x, verdicts);
  }

  lemma ByParts(s: Schema, x: Value, verdicts: seq<bool>)
    requires |verdicts| == |Parallel(s)|
    requires var a, b := |s.allOf|, |s.allOf| + |s.anyOf|;
      var c := b + |s.oneOf|;
      && (AllTrue(verdicts[..a]) <==> AllOf(s.allOf, x)) && (AnyTrue(verdicts[a..b]) <==> AnyOf(s.anyOf, x))
      && (OneTrue(verdicts[b..c]) <==> ExactlyOne(s.oneOf, x))
      && (s.not_.Some? ==> verdicts[c] == Satisfies(s.not_.value, x))
    ensures ValueAllowed(s, verdicts) <==> Combined(s, x)
  {
  }

  /** When every parallel validator is right, so is the verdict over all of them. */
  lemma CombinedAgrees(s: Schema, x: Value, verdicts: seq<bool>)
    requires Agreeing(Parallel(s), x, verdicts)
    ensures ValueAllowed(s, verdicts) <==> Combined(s, x)
  {
    AllOfSlots(s, x, verdicts);
    AnyOfSlots(s, x, verdicts);
    OneOfSlots(s, x, verdicts);
    if s.not_.Some? {
      NotSlot(s, x, verdicts);
    }
    ByParts(s, x, verdicts);
  }

  // ---------------------------------------------------------------- Heights

  lemma TypelessIsCompiled()
    ensures Compiled(TYPELESS) && Height(TYPELESS) == 1
  {
    assert TYPELESS.properties == [] && TYPELESS.allOf == [] && TYPELESS.anyOf == [] && TYPELESS.oneOf == [];
    assert OptionCompiled(TYPELESS.not_) && OptionCompiled(TYPELESS.additionalPropertiesSchema);
    assert ItemsCompiled(TYPELESS.items) && ItemsHeight(TYPELESS.items) == 0;
  }

  /** The schemas of parallel validators are lower, so passing an event on terminates. */
  lemma ParallelLower(s: Schema, i: nat)
    requires Compiled(s) && i < |Parallel(s)|
    ensures Height(Parallel(s)[i]) < Height(s) && Compiled(Parallel(s)[i])
  {
    var a, b := |s.allOf|, |s.allOf| + |s.anyOf|;
    var c := b + |s.oneOf|;
    if i < a {
      assert Parallel(s)[i] == s.allOf[i];
    } else if i < b {
      assert Parallel(s)[i] == s.anyOf[i - a];
    } else if i < c {
      assert Parallel(s)[i] == s.oneOf[i - b];
    } else {
      assert Parallel(s)[i] == s.not_.value;
    }
  }

  lemma MemberSchemaLow(s: Schema, name: bytes)
    requires Compiled(s) && MemberSchema(s, name).Some?
    ensures Height(MemberSchema(s, name).value) <= Height(s) && Compiled(MemberSchema(s, name).value)
  {
    TypelessIsCompiled();
  }

  lemma ItemsLow(s: Schema, index: nat)
    requires ItemsCompiled(s.items) && ElementSchema(s, index).Some? && ElementSchema(s, index).value != TYPELESS
    ensures Height(ElementSchema(s, index).value) <= ItemsHeight(s.items) && Compiled(ElementSchema(s, index).value)
  {
  }

  lemma ElementSchemaLow(s: Schema, index: nat)
    requires Compiled(s) && ElementSchema(s, index).Some?
    ensures Height(ElementSchema(s, index).value) <= Height(s) && Compiled(ElementSchema(s, index).value)
  {
    TypelessIsCompiled();
    if ElementSchema(s, index).value != TYPELESS {
      ItemsLow(s, index);
    }
  }

  lemma NewLower(s: Schema, height: nat)
    requires Compiled(s) && Height(s) <= height
    ensures Lower(NewValidators(Parallel(s)), height)
  {
    forall i | 0 <= i < |Parallel(s)|
      ensures Height(NewValidators(Parallel(s))[i].root) < height
    {
      ParallelLower(s, i);
    }
  }

  // ---------------------------------------------------------------- Single steps

  /** A value has been followed to its end. */
  ghost predicate Leaves(r: Validator, v: Validator, ok: bool, contexts: seq<Context>) {
    r.root == v.root && r.valid == ok && (ok ==> r.contexts == contexts)
  }

  lemma StepLeaf(v: Validator, e: Event, contexts: seq<Context>, t: Schema)
    requires v.valid && Begin(v.contexts, v.root) == Some((contexts, t))
    requires Starts(e) && !e.StartObject? && !e.StartArray?
    ensures Step(v, e) == if !StartAllowed(t, e) then v.(valid := false)
      else Complete(v, Forward(contexts + [Entered(t, e)], e, Height(v.root)))
  {
  }

  lemma StepOpens(v: Validator, e: Event, contexts: seq<Context>, t: Schema) returns (top: Context)
    requires v.valid && Begin(v.contexts, v.root) == Some((contexts, t)) && (e.StartObject? || e.StartArray?)
    ensures top == Entered(t, e).(validators := Fed(NewValidators(Parallel(t)), [e], Height(v.root)))
    ensures Step(v, e) == if !StartAllowed(t, e) then v.(valid := false)
      else v.(contexts := Passed(contexts, [e], Height(v.root)) + [top])
  {
    var h := Height(v.root);
    top := Entered(t, e).(validators := Fed(NewValidators(Parallel(t)), [e], h));
    ForwardLast(contexts, Entered(t, e), e, h);
    PassedOne(contexts, e, h);
    FedOne(NewValidators(Parallel(t)), e, h);
  }

  lemma StepEnds(v: Validator, e: Event, outer: seq<Context>, top: Context) returns (last: Context)
    requires v.valid && v.contexts == outer + [top] && (e.EndObject? || e.EndArray?)
    ensures last == top.(validators := Fed(top.validators, [e], Height(v.root)), inArray := false)
    ensures Step(v, e) == if !EndAllowed(last, e) then v.(valid := false)
      else Complete(v, Passed(outer, [e], Height(v.root)) + [last])
  {
    var h := Height(v.root);
    last := top.(validators := Fed(top.validators, [e], h), inArray := false);
    ForwardLast(outer, top, e, h);
    PassedOne(outer, e, h);
    FedOne(top.validators, e, h);
  }

  lemma StepNames(v: Validator, name: bytes, outer: seq<Context>, top: Context)
    requires v.valid && v.contexts == outer + [top]
    ensures Named(top, name).None? ==> Step(v, Key(name)) == v.(valid := false)
    ensures Named(top, name).Some? ==>
      var named, h := Named(top, name).value, Height(v.root);
      Step(v, Key(name)) == v.(contexts := Passed(outer, [Key(name)], h)
        + [named.(validators := Fed(named.validators, [Key(name)], h))])
  {
    if Named(top, name).Some? {
      var named, h := Named(top, name).value, Height(v.root);
      assert v.contexts[..|v.contexts| - 1] == outer;
      ForwardLast(outer, named, Key(name), h);
      PassedOne(outer, Key(name), h);
      FedOne(named.validators, Key(name), h);
    }
  }

  /** A part that may not be there is refused at its first event. */
  lemma BeginFails(v: Validator, x: Value)
    requires v.valid && Begin(v.contexts, v.root).None?
    ensures Run(v, Accept(x)).root == v.root && !Run(v, Accept(x)).valid
  {
    var es := Accept(x);
    assert es != [] && Starts(es[0]);
    RunRefused(Step(v, es[0]), es[1..]);
  }

  lemma VerdictsFed(schemas: seq<Schema>, x: Value, es: seq<Event>, h: nat)
    requires Lower(NewValidators(schemas), h)
    requires forall i | 0 <= i < |schemas| :: Run(NewValidator(schemas[i]), es).valid == Satisfies(schemas[i], x)
    ensures Agreeing(schemas, x, Verdicts(Fed(NewValidators(schemas), es, h)))
  {
    forall i: nat | i < |schemas|
      ensures Fed(NewValidators(schemas), es, h)[i].valid == Satisfies(schemas[i], x)
    {
      FedAt(NewValidators(schemas), es, h, i);
    }
  }

  /** The end of a value whose parallel validators have seen all its events. */
  lemma CompleteIs(v: Validator, outer: seq<Context>, top: Context, x: Value)
    requires top.validators == Fed(NewValidators(Parallel(top.schema)), Accept(x), Height(v.root))
    requires Agreeing(Parallel(top.schema), x, Verdicts(top.validators))
    ensures Complete(v, outer + [top]) == if Combined(top.schema, x) then v.(contexts := outer) else v.(valid := false)
  {
    CombinedAgrees(top.schema, x, Verdicts(top.validators));
    assert (outer + [top])[..|outer|] == outer;
  }

  // ---------------------------------------------------------------- Names and requirements

  function MarkOne(t: Schema, exist: seq<bool>, name: bytes): (r: seq<bool>)
    ensures |r| == |exist|
  {
    var i := FindProperty(t.properties, name);
    if i.Some? && i.value < |exist| then exist[i.value := true] else exist
  }

  /** The marks after the members from the `i`-th on. */
  function Mark(t: Schema, exist: seq<bool>, members: seq<Member>, i: nat): (r: seq<bool>)
    requires i <= |members|
    ensures |r| == |exist|
    decreases |members| - i
  {
    if i == |members| then exist else Mark(t, MarkOne(t, exist, members[i].name), members, i + 1)
  }

  ghost predicate PresentFrom(members: seq<Member>, i: nat, name: bytes) {
    exists k | i <= k < |members| :: members[k].name == name
  }

  lemma {:induction false} MarkAt(t: Schema, exist: seq<bool>, members: seq<Member>, i: nat, j: nat)
    requires Compiled(t) && i <= |members| && j < |exist| == |t.properties|
    ensures Mark(t, exist, members, i)[j] <==> exist[j] || PresentFrom(members, i, t.properties[j].name)
    decreases |members| - i
  {
    if i < |members| {
      MarkAt(t, MarkOne(t, exist, members[i].name), members, i + 1, j);
      assert PresentFrom(members, i, t.properties[j].name)
        <==> members[i].name == t.properties[j].name || PresentFrom(members, i + 1, t.properties[j].name);
    }
  }

  /** A required name is found missing exactly when no member has it. */
  lemma RequiredAgrees(t: Schema, members: seq<Member>, exist: seq<bool>)
    requires Compiled(t)
    requires exist == Mark(t, Entered(t, StartObject).propertyExist, members, 0)
    ensures NoneMissing(t, exist) <==> RequiredPresent(t, members)
  {
    if HasRequired(t) {
      forall j: nat | j < |t.properties|
        ensures exist[j] <==> Present(members, t.properties[j].name)
      {
        MarkAt(t, Entered(t, StartObject).propertyExist, members, 0, j);
      }
    }
  }

  // ---------------------------------------------------------------- Whole values

  ghost predicate ElementsSatisfy(t: Schema, elements: seq<Value>, i: nat)
    requires i <= |elements|
    decreases |elements| - i
  {
    i == |elements|
    || (ElementSchema(t, i).Some? && Satisfies(ElementSchema(t, i).value, elements[i])
        && ElementsSatisfy(t, elements, i + 1))
  }

  lemma {:induction false} ElementsSatisfyAll(t: Schema, elements: seq<Value>, i: nat)
    requires i <= |elements|
    ensures ElementsSatisfy(t, elements, i) <==> forall k | i <= k < |elements| ::
      ElementSchema(t, k).Some? && Satisfies(ElementSchema(t, k).value, elements[k])
    decreases |elements| - i
  {
    if i < |elements| {
      ElementsSatisfyAll(t, elements, i + 1);
    }
  }

  ghost predicate MembersSatisfy(t: Schema, members: seq<Member>, i: nat)
    requires i <= |members|
    decreases |members| - i
  {
    i == |members|
    || (MemberSchema(t, members[i].name).Some? && Satisfies(MemberSchema(t, members[i].name).value, members[i].value)
        && MembersSatisfy(t, members, i + 1))
  }

  lemma {:induction false} MembersSatisfyAll(t: Schema, members: seq<Member>, i: nat)
    requires i <= |members|
    ensures MembersSatisfy(t, members, i) <==> forall k | i <= k < |members| ::
      MemberSchema(t, members[k].name).Some? && Satisfies(MemberSchema(t, members[k].name).value, members[k].value)
    decreases |members| - i
  {
    if i < |members| {
      MembersSatisfyAll(t, members, i + 1);
    }
  }

  /** Every parallel validator, started afresh, decides its own schema. */
  lemma {:induction false} SubVerdicts(t: Schema, x: Value, h: nat)
    requires Compiled(t) && Height(t) <= h && WellFormed(x)
    ensures Agreeing(Parallel(t), x, Verdicts(Fed(NewValidators(Parallel(t)), Accept(x), h)))
    decreases h, x, 0
  {
    forall i: nat | i < |Parallel(t)|
      ensures Run(NewValidator(Parallel(t)[i]), Accept(x)).valid == Satisfies(Parallel(t)[i], x)
    {
      ParallelLower(t, i);
      ValueRun(NewValidator(Parallel(t)[i]), x, [], Parallel(t)[i]);
    }
    NewLower(t, h);
    VerdictsFed(Parallel(t), x, Accept(x), h);
  }

  /** A validator follows a value and accepts it exactly when the value satisfies its schema. */
  lemma {:induction false} ValueRun(v: Validator, x: Value, contexts: seq<Context>, t: Schema)
    requires v.valid && Begin(v.contexts, v.root) == Some((contexts, t))
    requires Height(t) <= Height(v.root) && Compiled(t) && WellFormed(x)
    ensures Leaves(Run(v, Accept(x)), v, Satisfies(t, x), Passed(contexts, Accept(x), Height(v.root)))
    decreases Height(v.root), x, 3
  {
    match x {
      case ArrayValue(elements) => ArrayRun(v, elements, contexts, t);
      case ObjectValue(members) => ObjectRun(v, members, contexts, t);
      case _ => LeafRun(v, x, contexts, t);
    }
  }

  lemma {:induction false} LeafRun(v: Validator, x: Value, contexts: seq<Context>, t: Schema)
    requires v.valid && Begin(v.contexts, v.root) == Some((contexts, t)) && !x.ArrayValue? && !x.ObjectValue?
    requires Height(t) <= Height(v.root) && Compiled(t) && WellFormed(x)
    ensures Leaves(Run(v, Accept(x)), v, Satisfies(t, x), Passed(contexts, Accept(x), Height(v.root)))
    decreases Height(v.root), x, 1
  {
    var e, h := LeafEvent(x), Height(v.root);
    LeafAllowed(t, x);
    RunOne(v, e);
    StepLeaf(v, e, contexts, t);
    if StartAllowed(t, e) {
      var top := Entered(t, e);
      ForwardLast(contexts, top, e, h);
      FedOne(top.validators, e, h);
      PassedOne(contexts, e, h);
      SubVerdicts(t, x, h);
      CompleteIs(v, Forward(contexts, e, h), top.(validators := PassOn(top.validators, e, h)), x);
    }
  }

  /** The validator inside an array: it has gone on, refused, or followed all of `es` with `top` open. */
  ghost predicate Inside(r: Validator, v: Validator, ok: bool, outer: seq<Context>, top: Context) {
    r.root == v.root && r.valid == ok && (ok ==> r.contexts == outer + [top])
  }

  lemma BeginElement(v: Validator, outer: seq<Context>, top: Context)
    requires v.contexts == outer + [top] && top.inArray
    ensures Begin(v.contexts, v.root) ==
      var t := ElementSchema(top.schema, top.arrayElementIndex);
      if t.None? then None
      else Some((outer + [top.(valueSchema := t, arrayElementIndex := top.arrayElementIndex + 1)], t.value))
  {
    assert v.contexts[..|outer|] == outer;
  }

  /** One element, which its schema allows at its place. */
  lemma {:induction false} ElementRun(v: Validator, outer: seq<Context>, top: Context, x: Value)
    returns (next: Validator, top': Context)
    requires v.valid && v.contexts == outer + [top] && top.inArray && WellFormed(x)
    requires Compiled(top.schema) && Height(top.schema) <= Height(v.root)
    ensures next == Run(v, Accept(x)) && next.root == v.root
    ensures next.valid <==> var t := ElementSchema(top.schema, top.arrayElementIndex); t.Some? && Satisfies(t.value, x)
    ensures next.valid ==> next.contexts == Passed(outer, Accept(x), Height(v.root)) + [top']
    ensures top'.schema == top.schema && top'.inArray && top'.arrayElementIndex == top.arrayElementIndex + 1
    ensures top'.validators == Fed(top.validators, Accept(x), Height(v.root))
    decreases Height(v.root), x, 4
  {
    var t, es, h := ElementSchema(top.schema, top.arrayElementIndex), Accept(x), Height(v.root);
    next := Run(v, es);
    var open := top.(valueSchema := t, arrayElementIndex := top.arrayElementIndex + 1);
    top' := open.(validators := Fed(top.validators, es, h));
    BeginElement(v, outer, top);
    if t.None? {
      BeginFails(v, x);
    } else {
      ElementSchemaLow(top.schema, top.arrayElementIndex);
      ValueRun(v, x, outer + [open], t.value);
      PassedLast(outer, open, es, h);
    }
  }

  lemma Chained(
    v: Validator, outer: seq<Context>, validators: seq<Validator>, own: seq<Event>, rest: seq<Event>, h: nat)
    ensures Run(v, own + rest) == Run(Run(v, own), rest)
    ensures Passed(outer, own + rest, h) == Passed(Passed(outer, own, h), rest, h)
    ensures Fed(validators, own + rest, h) == Fed(Fed(validators, own, h), rest, h)
  {
    RunConcat(v, own, rest);
    PassedConcat(outer, own, rest, h);
    FedConcat(validators, own, rest, h);
  }

  /** The elements from the `i`-th on. */
  lemma {:induction false} ElementsRun(
    v: Validator, outer: seq<Context>, top: Context, elements: seq<Value>, i: nat, h: nat) returns (last: Context)
    requires v.valid && v.contexts == outer + [top] && top.inArray && top.arrayElementIndex == i <= |elements|
    requires Compiled(top.schema) && Height(top.schema) <= h == Height(v.root)
    requires forall k | 0 <= k < |elements| :: WellFormed(elements[k])
    ensures var es := GenerateElements(elements, i, false);
      && Inside(Run(v, es), v, ElementsSatisfy(top.schema, elements, i), Passed(outer, es, h), last)
      && last.validators == Fed(top.validators, es, h)
    ensures last.schema == top.schema
    decreases h, elements, 2, |elements| - i
  {
    if i == |elements| {
      last := top;
    } else {
      var own := Accept(elements[i]);
      var next, top' := ElementRun(v, outer, top, elements[i]);
      if next.valid {
        last := ElementsRun(next, Passed(outer, own, h), top', elements, i + 1, h);
        ElementsJoin(v, next, outer, top, elements, i, h, last);
      } else {
        last := ElementsRefused(v, next, outer, top, elements, i, h);
      }
    }
  }

  /** The first element's history and that of the others make up the whole. */
  lemma ElementsJoin(
    v: Validator, next: Validator, outer: seq<Context>, top: Context, elements: seq<Value>, i: nat, h: nat,
    last: Context)
    requires i < |elements| && next == Run(v, Accept(elements[i])) && next.root == v.root
    requires var own, rest := Accept(elements[i]), GenerateElements(elements, i + 1, false);
      && Inside(Run(next, rest), next, ElementsSatisfy(top.schema, elements, i + 1),
           Passed(Passed(outer, own, h), rest, h), last)
      && last.validators == Fed(Fed(top.validators, own, h), rest, h)
    requires ElementSchema(top.schema, i).Some? && Satisfies(ElementSchema(top.schema, i).value, elements[i])
    ensures var es := GenerateElements(elements, i, false);
      && Inside(Run(v, es), v, ElementsSatisfy(top.schema, elements, i), Passed(outer, es, h), last)
      && last.validators == Fed(top.validators, es, h)
  {
    Chained(v, outer, top.validators, Accept(elements[i]), GenerateElements(elements, i + 1, false), h);
  }

  lemma ElementsRefused(
    v: Validator, next: Validator, outer: seq<Context>, top: Context, elements: seq<Value>, i: nat, h: nat)
    returns (last: Context)
    requires i < |elements| && next == Run(v, Accept(elements[i])) && next.root == v.root && !next.valid
    requires !(ElementSchema(top.schema, i).Some? && Satisfies(ElementSchema(top.schema, i).value, elements[i]))
    ensures var es := GenerateElements(elements, i, false);
      && Inside(Run(v, es), v, ElementsSatisfy(top.schema, elements, i), Passed(outer, es, h), last)
      && last.validators == Fed(top.validators, es, h)
    ensures last.schema == top.schema
  {
    var rest := GenerateElements(elements, i + 1, false);
    Chained(v, outer, top.validators, Accept(elements[i]), rest, h);
    RunRefused(next, rest);
    last := top.(validators := Fed(top.validators, GenerateElements(elements, i, false), h));
  }

  /** How three parts of a history follow one another. */
  lemma RunThree(v: Validator, outer: seq<Context>, a: Event, mid: seq<Event>, b: Event, h: nat)
    ensures Run(v, [a] + mid + [b]) == Step(Run(Step(v, a), mid), b)
    ensures Passed(outer, [a] + mid + [b], h) == Passed(Passed(Passed(outer, [a], h), mid, h), [b], h)
  {
    RunConcat(v, [a] + mid, [b]);
    RunConcat(v, [a], mid);
    RunOne(v, a);
    RunOne(Run(Step(v, a), mid), b);
    PassedConcat(outer, [a] + mid, [b], h);
    PassedConcat(outer, [a], mid, h);
  }

  /** What holds after a container's end was handed over event by event holds after its whole history. */
  lemma Follows(v: Validator, begun: Validator, a: Event, mid: seq<Event>, b: Event, x: Value, ok: bool,
                passed: seq<Context>)
    requires begun == Step(v, a) && Accept(x) == [a] + mid + [b]
    requires Leaves(Step(Run(begun, mid), b), v, ok, passed)
    ensures Leaves(Run(v, Accept(x)), v, ok, passed)
  {
    RunThree(v, [], a, mid, b, 0);
  }

  lemma FedThree(validators: seq<Validator>, a: Event, mid: seq<Event>, b: Event, h: nat)
    ensures Fed(validators, [a] + mid + [b], h) == Fed(Fed(Fed(validators, [a], h), mid, h), [b], h)
  {
    FedConcat(validators, [a] + mid, [b], h);
    FedConcat(validators, [a], mid, h);
  }

  lemma ArraySatisfies(t: Schema, elements: seq<Value>)
    ensures Satisfies(t, ArrayValue(elements)) <==>
      t.types.array_ && t.minItems <= |elements| <= t.maxItems && ElementsSatisfy(t, elements, 0)
      && Combined(t, ArrayValue(elements))
    ensures Parts(t, ArrayValue(elements)) <==> ElementsSatisfy(t, elements, 0)
  {
    ElementsSatisfyAll(t, elements, 0);
  }

  lemma ArrayRefused(t: Schema, elements: seq<Value>)
    requires !t.types.array_
    ensures !Satisfies(t, ArrayValue(elements))
  {
  }

  lemma {:induction false} ArrayRun(v: Validator, elements: seq<Value>, contexts: seq<Context>, t: Schema)
    requires v.valid && Begin(v.contexts, v.root) == Some((contexts, t))
    requires Height(t) <= Height(v.root) && Compiled(t) && WellFormed(ArrayValue(elements))
    ensures Leaves(Run(v, Accept(ArrayValue(elements))), v, Satisfies(t, ArrayValue(elements)),
      Passed(contexts, Accept(ArrayValue(elements)), Height(v.root)))
    decreases Height(v.root), ArrayValue(elements), 2
  {
    var mid, end := GenerateElements(elements, 0, false), EndArray(|elements|);
    var top := StepOpens(v, StartArray, contexts, t);
    var begun := Step(v, StartArray);
    if t.types.array_ {
      ArrayInside(v, begun, elements, contexts, top);
    } else {
      ArrayRefused(t, elements);
      RunRefused(begun, mid);
    }
    Follows(v, begun, StartArray, mid, end, ArrayValue(elements), Satisfies(t, ArrayValue(elements)),
      Passed(contexts, Accept(ArrayValue(elements)), Height(v.root)));
  }

  lemma {:induction false} ArrayInside(
    v: Validator, begun: Validator, elements: seq<Value>, contexts: seq<Context>, top: Context)
    requires var h := Height(v.root);
      && begun.root == v.root && begun.valid && begun.contexts == Passed(contexts, [StartArray], h) + [top]
      && top.validators == Fed(NewValidators(Parallel(top.schema)), [StartArray], h)
      && Height(top.schema) <= h
    requires top.inArray && top.arrayElementIndex == 0 && Compiled(top.schema) && top.schema.types.array_
    requires WellFormed(ArrayValue(elements))
    ensures Leaves(Step(Run(begun, GenerateElements(elements, 0, false)), EndArray(|elements|)), v,
      Satisfies(top.schema, ArrayValue(elements)), Passed(contexts, Accept(ArrayValue(elements)), Height(v.root)))
    decreases Height(v.root), ArrayValue(elements), 1, 1
  {
    var t, x, h, mid := top.schema, ArrayValue(elements), Height(v.root), GenerateElements(elements, 0, false);
    ArraySatisfies(t, elements);
    var last := ElementsRun(begun, Passed(contexts, [StartArray], h), top, elements, 0, h);
    if ElementsSatisfy(t, elements, 0) {
      ArrayEnd(v, Run(begun, mid), x, contexts, t, mid, last);
    }
  }

  /** The end of a container: its own check, and the verdicts of validators that have seen all its events. */
  lemma Closes(v: Validator, filled: Validator, x: Value, a: Event, mid: seq<Event>, b: Event,
               contexts: seq<Context>, last: Context) returns (closed: Context)
    requires Accept(x) == [a] + mid + [b] && (b.EndArray? || b.EndObject?)
    requires Inside(filled, v, true, Passed(Passed(contexts, [a], Height(v.root)), mid, Height(v.root)), last)
    requires last.validators
      == Fed(Fed(NewValidators(Parallel(last.schema)), [a], Height(v.root)), mid, Height(v.root))
    requires Agreeing(Parallel(last.schema), x,
      Verdicts(Fed(NewValidators(Parallel(last.schema)), Accept(x), Height(v.root))))
    ensures closed.schema == last.schema && closed.propertyExist == last.propertyExist
    ensures Leaves(Step(filled, b), v, EndAllowed(closed, b) && Combined(last.schema, x),
      Passed(contexts, Accept(x), Height(v.root)))
  {
    var h := Height(v.root);
    var outer := Passed(Passed(contexts, [a], h), mid, h);
    closed := StepEnds(filled, b, outer, last);
    RunThree(v, contexts, a, mid, b, h);
    FedThree(NewValidators(Parallel(last.schema)), a, mid, b, h);
    CompleteIs(filled, Passed(outer, [b], h), closed, x);
  }

  lemma {:induction false} ArrayEnd(
    v: Validator, filled: Validator, x: Value, contexts: seq<Context>, t: Schema, mid: seq<Event>, last: Context)
    requires x.ArrayValue? && WellFormed(x) && Compiled(t) && Height(t) <= Height(v.root)
    requires Accept(x) == [StartArray] + mid + [EndArray(|x.elements|)]
    requires t.types.array_ && Parts(t, x) && last.schema == t
    requires Inside(filled, v, true, Passed(Passed(contexts, [StartArray], Height(v.root)), mid, Height(v.root)), last)
    requires last.validators == Fed(Fed(NewValidators(Parallel(t)), [StartArray], Height(v.root)), mid, Height(v.root))
    ensures
      Leaves(Step(filled, EndArray(|x.elements|)), v, Satisfies(t, x), Passed(contexts, Accept(x), Height(v.root)))
    decreases Height(v.root), x, 1, 0
  {
    SubVerdicts(t, x, Height(v.root));
    var closed := Closes(v, filled, x, StartArray, mid, EndArray(|x.elements|), contexts, last);
  }

  // ---------------------------------------------------------------- Objects

  lemma BeginMember(v: Validator, outer: seq<Context>, top: Context, t: Schema)
    requires v.contexts == outer + [top] && !top.inArray && top.valueSchema == Some(t)
    ensures Begin(v.contexts, v.root) == Some((v.contexts, t))
  {
  }

  lemma NamedIs(top: Context, name: bytes)
    ensures Named(top, name).Some? <==> MemberSchema(top.schema, name).Some?
    ensures Named(top, name).Some? ==> Named(top, name).value == top.(
      valueSchema := MemberSchema(top.schema, name),
      propertyExist := MarkOne(top.schema, top.propertyExist, name))
  {
  }

  /** The validator after the name of a member. */
  lemma NameRun(v: Validator, outer: seq<Context>, top: Context, name: bytes, h: nat)
    returns (next: Validator, top': Context)
    requires v.valid && v.contexts == outer + [top] && h == Height(v.root)
    ensures next == Run(v, [Key(name)]) && next.root == v.root
    ensures next.valid <==> MemberSchema(top.schema, name).Some?
    ensures next.valid ==> next.contexts == Passed(outer, [Key(name)], h) + [top']
    ensures top' == top.(valueSchema := MemberSchema(top.schema, name),
      propertyExist := MarkOne(top.schema, top.propertyExist, name),
      validators := Fed(top.validators, [Key(name)], h))
  {
    RunOne(v, Key(name));
    StepNames(v, name, outer, top);
    NamedIs(top, name);
    next := Step(v, Key(name));
    top' := top.(valueSchema := MemberSchema(top.schema, name),
      propertyExist := MarkOne(top.schema, top.propertyExist, name),
      validators := Fed(top.validators, [Key(name)], h));
  }

  /** The value of a member whose name is known. */
  lemma {:induction false} MemberValueRun(
    v: Validator, outer: seq<Context>, top: Context, x: Value, t: Schema, h: nat)
    returns (next: Validator, top': Context)
    requires v.valid && v.contexts == outer + [top] && !top.inArray && top.valueSchema == Some(t) && WellFormed(x)
    requires Compiled(t) && Height(t) <= h == Height(v.root)
    ensures next == Run(v, Accept(x)) && next.root == v.root
    ensures next.valid <==> Satisfies(t, x)
    ensures next.valid ==> next.contexts == Passed(outer, Accept(x), h) + [top']
    ensures top' == top.(validators := Fed(top.validators, Accept(x), h))
    decreases h, x, 4
  {
    BeginMember(v, outer, top, t);
    ValueRun(v, x, v.contexts, t);
    PassedLast(outer, top, Accept(x), h);
    next := Run(v, Accept(x));
    top' := top.(validators := Fed(top.validators, Accept(x), h));
  }

  ghost predicate MemberSatisfies(t: Schema, m: Member) {
    MemberSchema(t, m.name).Some? && Satisfies(MemberSchema(t, m.name).value, m.value)
  }

  /** A whole member. */
  lemma {:induction false} MemberRun(v: Validator, outer: seq<Context>, top: Context, m: Member, h: nat)
    returns (next: Validator, top': Context)
    requires v.valid && v.contexts == outer + [top] && !top.inArray && WellFormed(m.value)
    requires Compiled(top.schema) && Height(top.schema) <= h == Height(v.root)
    ensures var es := [Key(m.name)] + Accept(m.value);
      && next == Run(v, es) && next.root == v.root
      && (next.valid <==> MemberSatisfies(top.schema, m))
      && (next.valid ==> next.contexts == Passed(outer, es, h) + [top'])
      && top'.validators == Fed(top.validators, es, h)
    ensures top'.schema == top.schema && !top'.inArray
    ensures top'.propertyExist == MarkOne(top.schema, top.propertyExist, m.name)
    decreases h, m, 5
  {
    var key, own := [Key(m.name)], Accept(m.value);
    var named, top1 := NameRun(v, outer, top, m.name, h);
    Chained(v, outer, top.validators, key, own, h);
    if named.valid {
      MemberSchemaLow(top.schema, m.name);
      next, top' := MemberValueRun(named, Passed(outer, key, h), top1, m.value,
        MemberSchema(top.schema, m.name).value, h);
    } else {
      RunRefused(named, own);
      next, top' := named, top1.(validators := Fed(top.validators, key + own, h));
    }
  }

  ghost function MemberEvents(m: Member): seq<Event> {
    [Key(m.name)] + Accept(m.value)
  }

  /** The members from the `i`-th on. */
  lemma {:induction false} MembersRun(
    v: Validator, outer: seq<Context>, top: Context, members: seq<Member>, i: nat, h: nat) returns (last: Context)
    requires v.valid && v.contexts == outer + [top] && !top.inArray && i <= |members|
    requires Compiled(top.schema) && Height(top.schema) <= h == Height(v.root)
    requires forall k | 0 <= k < |members| :: WellFormed(members[k].value)
    ensures var es := GenerateMembers(members, i, false);
      && Inside(Run(v, es), v, MembersSatisfy(top.schema, members, i), Passed(outer, es, h), last)
      && last.validators == Fed(top.validators, es, h)
    ensures last.schema == top.schema && last.propertyExist == Mark(top.schema, top.propertyExist, members, i)
    decreases h, members, 2, |members| - i
  {
    if i == |members| {
      last := top;
    } else {
      var own := MemberEvents(members[i]);
      var next, top' := MemberRun(v, outer, top, members[i], h);
      if next.valid {
        last := MembersRun(next, Passed(outer, own, h), top', members, i + 1, h);
        MembersJoin(v, next, outer, top, members, i, h, last);
      } else {
        last := MembersRefused(v, next, outer, top, members, i, h);
      }
    }
  }

  lemma MembersJoin(
    v: Validator, next: Validator, outer: seq<Context>, top: Context, members: seq<Member>, i: nat, h: nat,
    last: Context)
    requires i < |members| && next == Run(v, MemberEvents(members[i])) && next.root == v.root
    requires var own, rest := MemberEvents(members[i]), GenerateMembers(members, i + 1, false);
      && Inside(Run(next, rest), next, MembersSatisfy(top.schema, members, i + 1),
           Passed(Passed(outer, own, h), rest, h), last)
      && last.validators == Fed(Fed(top.validators, own, h), rest, h)
    requires MemberSatisfies(top.schema, members[i])
    ensures var es := GenerateMembers(members, i, false);
      && Inside(Run(v, es), v, MembersSatisfy(top.schema, members, i), Passed(outer, es, h), last)
      && last.validators == Fed(top.validators, es, h)
  {
    Chained(v, outer, top.validators, MemberEvents(members[i]), GenerateMembers(members, i + 1, false), h);
  }

  lemma MembersRefused(
    v: Validator, next: Validator, outer: seq<Context>, top: Context, members: seq<Member>, i: nat, h: nat)
    returns (last: Context)
    requires i < |members| && next == Run(v, MemberEvents(members[i])) && next.root == v.root && !next.valid
    requires !MemberSatisfies(top.schema, members[i])
    ensures var es := GenerateMembers(members, i, false);
      && Inside(Run(v, es), v, MembersSatisfy(top.schema, members, i), Passed(outer, es, h), last)
      && last.validators == Fed(top.validators, es, h)
    ensures last.schema == top.schema && last.propertyExist == Mark(top.schema, top.propertyExist, members, i)
  {
    var rest := GenerateMembers(members, i + 1, false);
    Chained(v, outer, top.validators, MemberEvents(members[i]), rest, h);
    RunRefused(next, rest);
    last := top.(validators := Fed(top.validators, GenerateMembers(members, i, false), h),
      propertyExist := Mark(top.schema, top.propertyExist, members, i));
  }

  lemma ObjectSatisfies(t: Schema, members: seq<Member>)
    ensures Parts(t, ObjectValue(members)) <==> MembersSatisfy(t, members, 0) && RequiredPresent(t, members)
    ensures Satisfies(t, ObjectValue(members)) <==>
      t.types.object_ && t.minProperties <= |members| <= t.maxProperties && MembersSatisfy(t, members, 0)
      && RequiredPresent(t, members) && Combined(t, ObjectValue(members))
  {
    MembersSatisfyAll(t, members, 0);
  }

  lemma {:induction false} ObjectRun(v: Validator, members: seq<Member>, contexts: seq<Context>, t: Schema)
    requires v.valid && Begin(v.contexts, v.root) == Some((contexts, t))
    requires Height(t) <= Height(v.root) && Compiled(t) && WellFormed(ObjectValue(members))
    ensures Leaves(Run(v, Accept(ObjectValue(members))), v, Satisfies(t, ObjectValue(members)),
      Passed(contexts, Accept(ObjectValue(members)), Height(v.root)))
    decreases Height(v.root), ObjectValue(members), 2
  {
    var mid, end := GenerateMembers(members, 0, false), EndObject(|members|);
    var top := StepOpens(v, StartObject, contexts, t);
    var begun := Step(v, StartObject);
    if t.types.object_ {
      ObjectInside(v, begun, members, contexts, top);
    } else {
      ObjectSatisfies(t, members);
      RunRefused(begun, mid);
    }
    Follows(v, begun, StartObject, mid, end, ObjectValue(members), Satisfies(t, ObjectValue(members)),
      Passed(contexts, Accept(ObjectValue(members)), Height(v.root)));
  }

  lemma {:induction false} ObjectInside(
    v: Validator, begun: Validator, members: seq<Member>, contexts: seq<Context>, top: Context)
    requires var h := Height(v.root);
      && begun.root == v.root && begun.valid && begun.contexts == Passed(contexts, [StartObject], h) + [top]
      && top.validators == Fed(NewValidators(Parallel(top.schema)), [StartObject], h)
      && Height(top.schema) <= h
    requires !top.inArray && Compiled(top.schema) && top.schema.types.object_
    requires top.propertyExist == Entered(top.schema, StartObject).propertyExist
    requires WellFormed(ObjectValue(members))
    ensures Leaves(Step(Run(begun, GenerateMembers(members, 0, false)), EndObject(|members|)), v,
      Satisfies(top.schema, ObjectValue(members)), Passed(contexts, Accept(ObjectValue(members)), Height(v.root)))
    decreases Height(v.root), ObjectValue(members), 1, 1
  {
    var t, x, h, mid := top.schema, ObjectValue(members), Height(v.root), GenerateMembers(members, 0, false);
    ObjectSatisfies(t, members);
    var last := MembersRun(begun, Passed(contexts, [StartObject], h), top, members, 0, h);
    RequiredAgrees(t, members, last.propertyExist);
    if MembersSatisfy(t, members, 0) {
      ObjectEnd(v, Run(begun, mid), members, contexts, t, mid, last);
    }
  }

  lemma {:induction false} ObjectEnd(
    v: Validator, filled: Validator, members: seq<Member>, contexts: seq<Context>, t: Schema, mid: seq<Event>,
    last: Context)
    requires WellFormed(ObjectValue(members)) && Compiled(t) && Height(t) <= Height(v.root)
    requires mid == GenerateMembers(members, 0, false)
    requires t.types.object_ && MembersSatisfy(t, members, 0) && last.schema == t
    requires NoneMissing(t, last.propertyExist) <==> RequiredPresent(t, members)
    requires Inside(filled, v, true, Passed(Passed(contexts, [StartObject], Height(v.root)), mid, Height(v.root)), last)
    requires last.validators == Fed(Fed(NewValidators(Parallel(t)), [StartObject], Height(v.root)), mid, Height(v.root))
    ensures var x := ObjectValue(members);
      Leaves(Step(filled, EndObject(|members|)), v, Satisfies(t, x), Passed(contexts, Accept(x), Height(v.root)))
    decreases Height(v.root), ObjectValue(members), 1, 0
  {
    SubVerdicts(t, ObjectValue(members), Height(v.root));
    var closed := Closes(v, filled, ObjectValue(members), StartObject, mid, EndObject(|members|), contexts, last);
    ObjectClosed(closed, members);
  }

  lemma ObjectClosed(closed: Context, members: seq<Member>)
    requires closed.schema.types.object_ && MembersSatisfy(closed.schema, members, 0)
    requires NoneMissing(closed.schema, closed.propertyExist) <==> RequiredPresent(closed.schema, members)
    ensures Satisfies(closed.schema, ObjectValue(members)) <==>
      EndAllowed(closed, EndObject(|members|)) && Combined(closed.schema, ObjectValue(members))
  {
    ObjectSatisfies(closed.schema, members);
  }

  // ---------------------------------------------------------------- The whole validator

  /** The streaming validator accepts the events of a value exactly when the value satisfies the schema. */
  lemma StreamingAgrees(s: Schema, v: Value)
    requires Compiled(s) && WellFormed(v)
    ensures var r := Run(NewValidator(s), Accept(v));
      (r.valid <==> Satisfies(s, v)) && (r.valid ==> r.contexts == [])
  {
    ValueRun(NewValidator(s), v, [], s);
    NothingPassed(Accept(v), Height(s));
  }

  lemma {:induction false} NothingPassed(events: seq<Event>, h: nat)
    ensures Passed([], events, h) == []
    decreases |events|
  {
    if events != [] {
      NothingPassed(events[1..], h);
    }
  }
}
