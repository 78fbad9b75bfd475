/** The validator as the handler it is: a stack of contexts and a verdict, changed event by event. */
module StreamingValidator {
  import opened Bytes
  import opened Sax
  import opened Dom
  import opened Schema
  import opened SchemaValidator
  import SchemaProof

  /** Where the parallel validators of a schema stand: the compiler hands the slots out in this order. */
  datatype Slots = Slots(allOf: nat, anyOf: nat, oneOf: nat, not_: nat, count: nat)

  /** A slot belongs to a group. */
  predicate InGroup(begin: nat, count: nat, slot: nat) {
    begin <= slot < begin + count
  }

  /** Every slot below the count belongs to exactly one of the four groups. */
  ghost predicate Partition(s: Schema, slots: Slots) {
    && slots.count == |Parallel(s)|
    && forall slot: nat | slot < slots.count ::
         var a, b := InGroup(slots.allOf, |s.allOf|, slot), InGroup(slots.anyOf, |s.anyOf|, slot);
         var c, d := InGroup(slots.oneOf, |s.oneOf|, slot), s.not_.Some? && slot == slots.not_;
         (a && !b && !c && !d) || (!a && b && !c && !d) || (!a && !b && c && !d) || (!a && !b && !c && d)
  }

  /** The slot of each group, and of each schema in it. */
  ghost predicate InOrder(s: Schema, slots: Slots) {
    && (s.allOf != [] ==> slots.allOf == 0)
    && (s.anyOf != [] ==> slots.anyOf == |s.allOf|)
    && (s.oneOf != [] ==> slots.oneOf == |s.allOf| + |s.anyOf|)
    && (s.not_.Some? ==> slots.not_ == |s.allOf| + |s.anyOf| + |s.oneOf|)
    && slots.count == |Parallel(s)|
  }

  lemma InOrderIsPartition(s: Schema, slots: Slots)
    requires InOrder(s, slots)
    ensures Partition(s, slots)
  {
  }

  /** Reserves slots the way the schema's constructor does: group by group, empty groups get none. */
  method AssignSlots(s: Schema) returns (slots: Slots)
    ensures InOrder(s, slots) && Partition(s, slots)
  {
    var validatorCount, allOf, anyOf, oneOf, not_ := 0, 0, 0, 0, 0;
    if |s.allOf| > 0 {
      allOf := validatorCount;
      validatorCount := validatorCount + |s.allOf|;
    }
    if |s.anyOf| > 0 {
      anyOf := validatorCount;
      validatorCount := validatorCount + |s.anyOf|;
    }
    if |s.oneOf| > 0 {
      oneOf := validatorCount;
      validatorCount := validatorCount + |s.oneOf|;
    }
    if s.not_.Some? {
      not_ := validatorCount;
      validatorCount := validatorCount + 1;
    }
    slots := Slots(allOf, anyOf, oneOf, not_, validatorCount);
    InOrderIsPartition(s, slots);
  }

  /** Puts a fresh validator for each schema of a group into the group's slots. */
  method CreateSchemaValidators(a: array<Option<Validator>>, schemas: seq<Schema>, begin: nat)
    requires begin + |schemas| <= a.Length
    modifies a
    ensures forall i | 0 <= i < |schemas| :: a[begin + i] == Some(NewValidator(schemas[i]))
    ensures forall k | 0 <= k < a.Length && !(begin <= k < begin + |schemas|) :: a[k] == old(a[k])
  {
    for i := 0 to |schemas|
      invariant forall j | 0 <= j < i :: a[begin + j] == Some(NewValidator(schemas[j]))
      invariant forall k | 0 <= k < a.Length && !(begin <= k < begin + i) :: a[k] == old(a[k])
    {
      a[begin + i] := Some(NewValidator(schemas[i]));
    }
  }

  /** Fills every slot of a new context: no slot is left empty, and none is written twice. */
  method CreateParallelValidator(s: Schema, slots: Slots) returns (validators: seq<Validator>)
    requires InOrder(s, slots)
    ensures validators == NewValidators(Parallel(s))
  {
    var a := new Option<Validator>[slots.count](_ => None);
    if |s.allOf| > 0 {
      CreateSchemaValidators(a, s.allOf, slots.allOf);
    }
    if |s.anyOf| > 0 {
      CreateSchemaValidators(a, s.anyOf, slots.anyOf);
    }
    if |s.oneOf| > 0 {
      CreateSchemaValidators(a, s.oneOf, slots.oneOf);
    }
    if s.not_.Some? {
      a[slots.not_] := Some(NewValidator(s.not_.value));
    }
    SlotsFilled(s, a[..]);
    validators := seq(slots.count, i requires 0 <= i < slots.count && a[i].Some? reads a => a[i].value);
  }

  ghost predicate FilledFrom(cells: seq<Option<Validator>>, begin: nat, schemas: seq<Schema>) {
    begin + |schemas| <= |cells| && forall i | 0 <= i < |schemas| :: cells[begin + i] == Some(NewValidator(schemas[i]))
  }

  lemma SlotsFilled(s: Schema, cells: seq<Option<Validator>>)
    requires |cells| == |Parallel(s)|
    requires FilledFrom(cells, 0, s.allOf) && FilledFrom(cells, |s.allOf|, s.anyOf)
    requires FilledFrom(cells, |s.allOf| + |s.anyOf|, s.oneOf)
    requires s.not_.Some? ==> cells[|s.allOf| + |s.anyOf| + |s.oneOf|] == Some(NewValidator(s.not_.value))
    ensures forall i | 0 <= i < |cells| :: cells[i] == Some(NewValidator(Parallel(s)[i]))
  {
    var a, b := |s.allOf|, |s.allOf| + |s.anyOf|;
    var c := b + |s.oneOf|;
    forall i | 0 <= i < |cells|
      ensures cells[i] == Some(NewValidator(Parallel(s)[i]))
    {
      if i < a {
        assert Parallel(s)[i] == s.allOf[i];
      } else if i < b {
        assert Parallel(s)[i] == s.anyOf[i - a] && cells[a + (i - a)] == cells[i];
      } else if i < c {
        assert Parallel(s)[i] == s.oneOf[i - b] && cells[b + (i - b)] == cells[i];
      } else {
        assert Parallel(s)[i] == s.not_.value;
      }
    }
  }

  // ---------------------------------------------------------------- Bounds that every event keeps

  ghost predicate LowSchema(s: Schema, height: nat) {
    Compiled(s) && Height(s) <= height
  }

  ghost predicate LowContext(c: Context, height: nat) {
    && LowSchema(c.schema, height)
    && (c.valueSchema.Some? ==> LowSchema(c.valueSchema.value, height))
    && SchemaProof.Lower(c.validators, height)
    && |c.validators| == |Parallel(c.schema)|
  }

  ghost predicate LowContexts(contexts: seq<Context>, height: nat) {
    forall i | 0 <= i < |contexts| :: LowContext(contexts[i], height)
  }

  lemma NewIsLow(s: Schema, e: Event, height: nat)
    requires LowSchema(s, height)
    ensures LowContext(Entered(s, e), height)
  {
    SchemaProof.NewLower(s, height);
  }

  lemma PassedIsLow(c: Context, e: Event, height: nat)
    requires LowContext(c, height)
    ensures LowContext(c.(validators := PassOn(c.validators, e, height)), height)
  {
    SchemaProof.PassOnLower(c.validators, e, height);
  }

  lemma {:induction false} ForwardIsLow(contexts: seq<Context>, e: Event, height: nat)
    requires LowContexts(contexts, height)
    ensures LowContexts(Forward(contexts, e, height), height)
    decreases |contexts|
  {
    if contexts != [] {
      var last := |contexts| - 1;
      ForwardIsLow(contexts[..last], e, height);
      PassedIsLow(contexts[last], e, height);
    }
  }

  lemma BeginLow(contexts: seq<Context>, root: Schema, height: nat)
    requires LowContexts(contexts, height) && LowSchema(root, height)
    ensures Begin(contexts, root).Some? ==>
      LowContexts(Begin(contexts, root).value.0, height) && LowSchema(Begin(contexts, root).value.1, height)
  {
    if contexts != [] && Begin(contexts, root).Some? {
      var top := contexts[|contexts| - 1];
      assert LowContext(top, height);
      if top.inArray {
        SchemaProof.ElementSchemaLow(top.schema, top.arrayElementIndex);
      }
    }
  }

  /** What is to be read of a validator from outside: the verdict, and while it stands the contexts. */
  ghost predicate Same(a: Validator, b: Validator) {
    a.root == b.root && a.valid == b.valid && (a.valid ==> a.contexts == b.contexts)
  }

  class StreamValidator {
    const root: Schema
    var schemaStack: seq<Context>
    var valid: bool

    function Now(): Validator
      reads this
    {
      Validator(root, schemaStack, valid)
    }

    ghost predicate Valid()
      reads this
    {
      Compiled(root) && LowContexts(schemaStack, Height(root))
    }

    constructor (root: Schema)
      requires Compiled(root)
      ensures Valid() && Now() == NewValidator(root)
    {
      this.root := root;
      schemaStack, valid := [], true;
    }

    method Reset()
      requires Compiled(root)
      modifies this
      ensures Valid() && Now() == NewValidator(root)
    {
      schemaStack, valid := [], true;
    }

    /** Passes an event to every parallel validator of every open value. */
    method HandleParallel(e: Event)
      requires Valid()
      modifies this`schemaStack
      ensures Valid() && schemaStack == Forward(old(schemaStack), e, Height(root))
    {
      ghost var before, height := schemaStack, Height(root);
      for i := 0 to |schemaStack|
        invariant |schemaStack| == |before| && Halfway(schemaStack, before, i, e, height)
      {
        HalfwayAt(schemaStack, before, i, e, height);
        var c := schemaStack[i];
        var validators := HandleContext(c.validators, e);
        HalfwayNext(schemaStack, before, i, e, height);
        schemaStack := schemaStack[i := c.(validators := validators)];
      }
      HalfwayEnd(schemaStack, before, e, height);
      ForwardIsLow(before, e, height);
    }

    method HandleContext(validators: seq<Validator>, e: Event) returns (r: seq<Validator>)
      requires SchemaProof.Lower(validators, Height(root))
      ensures r == PassOn(validators, e, Height(root))
    {
      r := validators;
      ghost var height := Height(root);
      for j := 0 to |r|
        invariant |r| == |validators| && PartlyPassed(r, validators, j, e, height)
      {
        PartlyPassedNext(r, validators, j, e, height);
        r := r[j := Step(r[j], e)];
      }
      assert validators[..|r|] == validators;
    }

    /** Pushes a context for the part that starts next, unless there may be no such part. */
    method BeginValue() returns (ok: bool, t: Schema)
      requires Valid()
      modifies this`schemaStack
      ensures Valid()
      ensures ok == Begin(old(schemaStack), root).Some?
      ensures ok ==> LowSchema(t, Height(root)) && Begin(old(schemaStack), root) == Some((schemaStack, t))
    {
      BeginLow(schemaStack, root, Height(root));
      if schemaStack == [] {
        return true, root;
      }
      var top := schemaStack[|schemaStack| - 1];
      if top.inArray {
        var element := ElementSchema(top.schema, top.arrayElementIndex);
        if element.None? {
          return false, TYPELESS;
        }
        t := element.value;
        schemaStack := schemaStack[..|schemaStack| - 1]
          + [top.(valueSchema := element, arrayElementIndex := top.arrayElementIndex + 1)];
      } else {
        if top.valueSchema.None? {
          return false, TYPELESS;
        }
        t := top.valueSchema.value;
      }
      return true, t;
    }

    /** Pushes the context of a value that starts with `e`, with a parallel validator in every slot. */
    method PushSchema(t: Schema, e: Event)
      requires Valid() && LowSchema(t, Height(root))
      modifies this`schemaStack
      ensures Valid() && schemaStack == old(schemaStack) + [Entered(t, e)]
    {
      var slots := AssignSlots(t);
      var validators := CreateParallelValidator(t, slots);
      var exist := if e.StartObject? && HasRequired(t) then seq(|t.properties|, _ => false) else [];
      NewIsLow(t, e, Height(root));
      schemaStack := schemaStack + [Context(t, None, validators, 0, exist, e.StartArray?)];
    }

    /** The verdict over the slots of the innermost value, which is then popped. */
    method EndValue() returns (ok: bool)
      requires Valid() && schemaStack != []
      modifies this`schemaStack
      ensures Valid()
      ensures
        Same(Validator(root, schemaStack, ok), Complete(Validator(root, old(schemaStack), true), old(schemaStack)))
    {
      var top := schemaStack[|schemaStack| - 1];
      assert LowContext(top, Height(root));
      ok := CheckSlots(top.schema, top.validators);
      if ok {
        schemaStack := schemaStack[..|schemaStack| - 1];
      }
    }

    /** The loops over the slots. */
    method CheckSlots(s: Schema, validators: seq<Validator>) returns (ok: bool)
      requires |validators| == |Parallel(s)|
      ensures ok == ValueAllowed(s, Verdicts(validators))
    {
      var verdicts := Verdicts(validators);
      var anyOf := |s.allOf|;
      var oneOf := anyOf + |s.anyOf|;
      var not_ := oneOf + |s.oneOf|;
      var all := CheckAllOf(verdicts[..anyOf]);
      if !all {
        return false;
      }
      if s.anyOf != [] {
        var any := CheckAnyOf(verdicts[anyOf..oneOf]);
        if !any {
          return false;
        }
      }
      if s.oneOf != [] {
        var one := CheckOneOf(verdicts[oneOf..not_]);
        if !one {
          return false;
        }
      }
      return s.not_.None? || !verdicts[not_];
    }

    static method CheckAllOf(verdicts: seq<bool>) returns (ok: bool)
      ensures ok == AllTrue(verdicts)
    {
      for i := 0 to |verdicts|
        invariant forall j | 0 <= j < i :: verdicts[j]
      {
        if !verdicts[i] {
          return false;
        }
      }
      return true;
    }

    static method CheckAnyOf(verdicts: seq<bool>) returns (ok: bool)
      ensures ok == AnyTrue(verdicts)
    {
      for i := 0 to |verdicts|
        invariant forall j | 0 <= j < i :: !verdicts[j]
      {
        if verdicts[i] {
          return true;
        }
      }
      return false;
    }

    /** Stops at the second validator that accepts. */
    static method CheckOneOf(verdicts: seq<bool>) returns (ok: bool)
      ensures ok == OneTrue(verdicts)
    {
      var oneValid := false;
      ghost var which := 0;
      for i := 0 to |verdicts|
        invariant !oneValid ==> forall j | 0 <= j < i :: !verdicts[j]
        invariant oneValid ==> which < i && verdicts[which] && forall j | 0 <= j < i && j != which :: !verdicts[j]
      {
        if verdicts[i] {
          if oneValid {
            return false;
          }
          oneValid, which := true, i;
        }
      }
      return oneValid;
    }

    /** Begins a value and hands its first event to the parallel validators. */
    method HandleStart(e: Event) returns (ok: bool)
      requires Valid() && Starts(e)
      modifies this
      ensures Valid() && (!ok ==> !valid && !Step(old(Now()), e).valid)
      ensures ok ==> valid && old(valid) && Started(old(Now()), e) == Some(schemaStack)
    {
      if !valid {
        return false;
      }
      var t;
      ok, t := BeginValue();
      if !ok || !StartAllowed(t, e) {
        valid := false;
        return false;
      }
      PushSchema(t, e);
      HandleParallel(e);
    }

    /** A value that is no container: begin, pass on, end. */
    method HandleValue(e: Event) returns (ok: bool)
      requires Valid() && Starts(e) && !e.StartObject? && !e.StartArray?
      modifies this
      ensures Valid() && ok == valid && Same(Now(), Step(old(Now()), e))
    {
      if !valid {
        return false;
      }
      StepLeaf(Now(), e);
      ok := HandleStart(e);
      if ok {
        valid := EndValue();
        ok := valid;
      }
    }

    /** A container: begin, pass on. */
    method HandleOpen(e: Event) returns (ok: bool)
      requires Valid() && (e.StartObject? || e.StartArray?)
      modifies this
      ensures Valid() && ok == valid && Same(Now(), Step(old(Now()), e))
    {
      ok := HandleStart(e);
    }

    method Null() returns (ok: bool)
      requires Valid()
      modifies this
      ensures Valid() && ok == valid && Same(Now(), Step(old(Now()), Event.Null))
    {
      ok := HandleValue(Event.Null);
    }

    method Bool(b: bool) returns (ok: bool)
      requires Valid()
      modifies this
      ensures Valid() && ok == valid && Same(Now(), Step(old(Now()), Event.Bool(b)))
    {
      ok := HandleValue(Event.Bool(b));
    }

    method Int(i: int) returns (ok: bool)
      requires Valid()
      modifies this
      ensures Valid() && ok == valid && Same(Now(), Step(old(Now()), Event.Int(i)))
    {
      ok := HandleValue(Event.Int(i));
    }

    method Uint(u: nat) returns (ok: bool)
      requires Valid()
      modifies this
      ensures Valid() && ok == valid && Same(Now(), Step(old(Now()), Event.Uint(u)))
    {
      ok := HandleValue(Event.Uint(u));
    }

    method Int64(i: int) returns (ok: bool)
      requires Valid()
      modifies this
      ensures Valid() && ok == valid && Same(Now(), Step(old(Now()), Event.Int64(i)))
    {
      ok := HandleValue(Event.Int64(i));
    }

    method Uint64(u: nat) returns (ok: bool)
      requires Valid()
      modifies this
      ensures Valid() && ok == valid && Same(Now(), Step(old(Now()), Event.Uint64(u)))
    {
      ok := HandleValue(Event.Uint64(u));
    }

    method Double(literal: bytes) returns (ok: bool)
      requires Valid()
      modifies this
      ensures Valid() && ok == valid && Same(Now(), Step(old(Now()), Event.Double(literal)))
    {
      ok := HandleValue(Event.Double(literal));
    }

    method String(str: bytes) returns (ok: bool)
      requires Valid()
      modifies this
      ensures Valid() && ok == valid && Same(Now(), Step(old(Now()), Event.String(str)))
    {
      ok := HandleValue(Event.String(str));
    }

    method StartObject() returns (ok: bool)
      requires Valid()
      modifies this
      ensures Valid() && ok == valid && Same(Now(), Step(old(Now()), Event.StartObject))
    {
      ok := HandleOpen(Event.StartObject);
    }

    method StartArray() returns (ok: bool)
      requires Valid()
      modifies this
      ensures Valid() && ok == valid && Same(Now(), Step(old(Now()), Event.StartArray))
    {
      ok := HandleOpen(Event.StartArray);
    }

    /** A member name picks the schema of the member's value and marks the property. */
    method NameMember(name: bytes) returns (ok: bool)
      requires Valid() && schemaStack != []
      modifies this`schemaStack
      ensures Valid()
      ensures var before := old(schemaStack);
        var n := |before|;
        var named := Named(before[n - 1], name);
        ok == named.Some? &&
        (ok ==> schemaStack == Forward(before[..n - 1] + [named.value], Event.Key(name), Height(root)))
    {
      var top := schemaStack[|schemaStack| - 1];
      var named := Named(top, name);
      if named.None? {
        return false;
      }
      NamedLow(top, name, Height(root));
      schemaStack := schemaStack[..|schemaStack| - 1] + [named.value];
      HandleParallel(Event.Key(name));
      return true;
    }

    method Key(name: bytes) returns (ok: bool)
      requires Valid() && (valid ==> schemaStack != [])
      modifies this
      ensures Valid() && ok == valid && Same(Now(), Step(old(Now()), Event.Key(name)))
    {
      StepKey(Now(), name);
      ok := HandleKey(name);
    }

    method HandleKey(name: bytes) returns (ok: bool)
      requires Valid() && (valid ==> schemaStack != [])
      modifies this
      ensures Valid() && ok == valid && Same(Now(), Keyed(old(Now()), name))
    {
      if !valid {
        return false;
      }
      valid := NameMember(name);
      ok := valid;
    }

    method HandleEnd(e: Event) returns (ok: bool)
      requires Valid() && (e.EndObject? || e.EndArray?) && (valid ==> schemaStack != [])
      modifies this
      ensures Valid() && ok == valid && Same(Now(), Step(old(Now()), e))
    {
      StepEnd(Now(), e);
      ok := HandleContainerEnd(e);
    }

    /** The end of a container: pass on, check, end. */
    method HandleContainerEnd(e: Event) returns (ok: bool)
      requires Valid() && (e.EndObject? || e.EndArray?) && (valid ==> schemaStack != [])
      modifies this
      ensures Valid() && ok == valid && Same(Now(), Ended(old(Now()), e))
    {
      if !valid {
        return false;
      }
      ghost var before := Now();
      ok := CloseContainer(e);
      if ok {
        ghost var closed := schemaStack;
        ok := EndValue();
        CompleteSame(before, Validator(root, closed, true), closed);
      }
      valid := ok;
    }

    /** Passes the end on and makes the schema's own check. */
    method CloseContainer(e: Event) returns (ok: bool)
      requires Valid() && valid && schemaStack != [] && (e.EndObject? || e.EndArray?)
      modifies this`schemaStack
      ensures Valid() && schemaStack != []
      ensures Ended(old(Now()), e) == if ok then Complete(old(Now()), schemaStack) else old(Now()).(valid := false)
    {
      ghost var before := Now();
      HandleParallel(e);
      ok := CloseTop(e);
      if ok {
        EndedAllowed(before, e, schemaStack);
      } else {
        EndedRefused(before, e);
      }
    }

    /** The schema's own check at the end of a container. */
    method CloseTop(e: Event) returns (ok: bool)
      requires Valid() && schemaStack != [] && (e.EndObject? || e.EndArray?)
      modifies this`schemaStack
      ensures Valid()
      ensures var n := |old(schemaStack)|;
        var top := old(schemaStack)[n - 1].(inArray := false);
        ok == EndAllowed(top, e) && schemaStack == old(schemaStack)[..n - 1] + [top]
    {
      var top := schemaStack[|schemaStack| - 1].(inArray := false);
      assert LowContext(schemaStack[|schemaStack| - 1], Height(root));
      schemaStack := schemaStack[..|schemaStack| - 1] + [top];
      if e.EndArray? {
        ok := top.schema.minItems <= e.elementCount <= top.schema.maxItems;
      } else {
        ok := CheckRequired(top.schema, top.propertyExist);
        ok := ok && top.schema.minProperties <= e.memberCount <= top.schema.maxProperties;
      }
    }

    /** The loop over the properties that looks for missing ones. */
    static method CheckRequired(s: Schema, propertyExist: seq<bool>) returns (ok: bool)
      ensures ok == NoneMissing(s, propertyExist)
    {
      ok := true;
      for index := 0 to |s.properties|
        invariant ok <==> forall i | 0 <= i < index && s.properties[i].required ::
          (i < |propertyExist| && propertyExist[i]) || s.properties[i].schema.defaultValueLength != 0
      {
        var exists_ := index < |propertyExist| && propertyExist[index];
        if s.properties[index].required && !exists_ && s.properties[index].schema.defaultValueLength == 0 {
          ok := false;
        }
      }
    }

    method EndObject(memberCount: nat) returns (ok: bool)
      requires Valid() && (valid ==> schemaStack != [])
      modifies this
      ensures Valid() && ok == valid && Same(Now(), Step(old(Now()), Event.EndObject(memberCount)))
    {
      ok := HandleEnd(Event.EndObject(memberCount));
    }

    method EndArray(elementCount: nat) returns (ok: bool)
      requires Valid() && (valid ==> schemaStack != [])
      modifies this
      ensures Valid() && ok == valid && Same(Now(), Step(old(Now()), Event.EndArray(elementCount)))
    {
      ok := HandleEnd(Event.EndArray(elementCount));
    }
  }

  lemma NamedLow(top: Context, name: bytes, height: nat)
    requires LowContext(top, height) && Named(top, name).Some?
    ensures LowContext(Named(top, name).value, height)
  {
    SchemaProof.MemberSchemaLow(top.schema, name);
  }

  lemma StepLeaf(v: Validator, e: Event)
    requires Starts(e) && !e.StartObject? && !e.StartArray? && v.valid
    ensures Step(v, e) == if Started(v, e).None? then v.(valid := false) else Complete(v, Started(v, e).value)
  {
  }

  /** The validator after the end of a container. */
  function Ended(v: Validator, e: Event): Validator {
    if !v.valid then v
    else if v.contexts == [] then v.(valid := false)
    else
      var passed := Forward(v.contexts, e, Height(v.root));
      var top := passed[|passed| - 1].(inArray := false);
      if EndAllowed(top, e) then Complete(v, passed[..|passed| - 1] + [top]) else v.(valid := false)
  }

  lemma CompleteSame(v: Validator, w: Validator, contexts: seq<Context>)
    requires contexts != [] && v.root == w.root && v.valid == w.valid
    ensures Same(Complete(v, contexts), Complete(w, contexts))
  {
  }

  lemma EndedAllowed(v: Validator, e: Event, closed: seq<Context>)
    requires v.valid && v.contexts != []
    requires var passed := Forward(v.contexts, e, Height(v.root));
      var top := passed[|passed| - 1].(inArray := false);
      EndAllowed(top, e) && closed == passed[..|passed| - 1] + [top]
    ensures Ended(v, e) == Complete(v, closed)
  {
  }

  lemma EndedRefused(v: Validator, e: Event)
    requires v.valid && v.contexts != []
    requires var passed := Forward(v.contexts, e, Height(v.root));
      !EndAllowed(passed[|passed| - 1].(inArray := false), e)
    ensures Ended(v, e) == v.(valid := false)
  {
  }

  lemma StepEnd(v: Validator, e: Event)
    requires e.EndObject? || e.EndArray?
    ensures Step(v, e) == Ended(v, e)
  {
  }

  /** The validator after a member name. */
  function Keyed(v: Validator, name: bytes): Validator {
    if !v.valid then v
    else if v.contexts == [] then v.(valid := false)
    else
      var n := |v.contexts|;
      var named := Named(v.contexts[n - 1], name);
      if named.None? then v.(valid := false)
      else v.(contexts := Forward(v.contexts[..n - 1] + [named.value], Key(name), Height(v.root)))
  }

  lemma StepKey(v: Validator, name: bytes)
    ensures Step(v, Key(name)) == Keyed(v, name)
  {
  }

  /** The stack after the first event of a value, when the value may start. */
  function Started(v: Validator, e: Event): Option<seq<Context>> {
    match Begin(v.contexts, v.root)
    case None => None
    case Some((contexts, t)) =>
      if StartAllowed(t, e) then Some(Forward(contexts + [Entered(t, e)], e, Height(v.root))) else None
  }

  /** The first `i` contexts have had the event passed on, the others not. */
  ghost predicate Halfway(contexts: seq<Context>, before: seq<Context>, i: nat, e: Event, height: nat) {
    i <= |before| && contexts == Forward(before[..i], e, height) + before[i..]
  }

  lemma HalfwayAt(contexts: seq<Context>, before: seq<Context>, i: nat, e: Event, height: nat)
    requires Halfway(contexts, before, i, e, height) && i < |before| == |contexts| && LowContexts(before, height)
    ensures contexts[i] == before[i] && SchemaProof.Lower(contexts[i].validators, height)
  {
    assert LowContext(before[i], height);
  }

  lemma HalfwayNext(contexts: seq<Context>, before: seq<Context>, i: nat, e: Event, height: nat)
    requires Halfway(contexts, before, i, e, height) && i < |before| == |contexts|
    ensures var c := before[i];
      Halfway(contexts[i := c.(validators := PassOn(c.validators, e, height))], before, i + 1, e, height)
  {
    assert before[..i + 1] == before[..i] + [before[i]];
    SchemaProof.ForwardLast(before[..i], before[i], e, height);
  }

  lemma HalfwayEnd(contexts: seq<Context>, before: seq<Context>, e: Event, height: nat)
    requires Halfway(contexts, before, |before|, e, height)
    ensures contexts == Forward(before, e, height)
  {
    assert before[..|before|] == before;
  }

  /** The first `j` validators have had the event, the others not. */
  ghost predicate PartlyPassed(r: seq<Validator>, validators: seq<Validator>, j: nat, e: Event, height: nat) {
    j <= |validators| && r == PassOn(validators[..j], e, height) + validators[j..]
  }

  lemma PartlyPassedNext(r: seq<Validator>, validators: seq<Validator>, j: nat, e: Event, height: nat)
    requires PartlyPassed(r, validators, j, e, height) && j < |validators| == |r|
    requires SchemaProof.Lower(validators, height)
    ensures r[j] == validators[j] && PartlyPassed(r[j := Step(r[j], e)], validators, j + 1, e, height)
  {
    assert validators[..j + 1][..j] == validators[..j];
  }

  // ---------------------------------------------------------------- A value hands its events to the validator

  lemma SameStep(a: Validator, b: Validator, e: Event)
    requires Same(a, b)
    ensures Same(Step(a, e), Step(b, e))
  {
    SchemaProof.StepRoot(a, e);
    SchemaProof.StepRoot(b, e);
    if a.valid {
      assert a == b;
    }
  }

  lemma {:induction false} SameRun(a: Validator, b: Validator, events: seq<Event>)
    requires Same(a, b)
    ensures Same(Run(a, events), Run(b, events))
    decreases |events|
  {
    if events != [] {
      SameStep(a, b, events[0]);
      SameRun(Step(a, events[0]), Step(b, events[0]), events[1..]);
    }
  }

  function Deeper(e: Event): int {
    if e.StartObject? || e.StartArray? then 1 else if e.EndObject? || e.EndArray? then -1 else 0
  }

  /** How an event the validator allows changes the number of open values. */
  lemma DepthAfter(v: Validator, e: Event)
    requires Step(v, e).valid && (v.contexts == [] ==> Starts(e))
    ensures |Step(v, e).contexts| == |v.contexts| + Deeper(e)
  {
  }

  /** What is left of the run that ends in `goal`. */
  ghost predicate Leads(now: Validator, rest: seq<Event>, goal: Validator) {
    Same(Run(now, rest), goal)
  }

  lemma LeadsOn(before: Validator, now: Validator, own: seq<Event>, rest: seq<Event>, goal: Validator)
    requires Leads(before, own + rest, goal) && Same(now, Run(before, own))
    ensures Leads(now, rest, goal)
    ensures !now.valid ==> Same(now, goal)
  {
    SchemaProof.RunConcat(before, own, rest);
    SameRun(now, Run(before, own), rest);
    if !now.valid {
      SchemaProof.RunRefused(now, rest);
    }
  }

  lemma LeadsStep(before: Validator, now: Validator, e: Event, rest: seq<Event>, goal: Validator)
    requires Leads(before, [e] + rest, goal) && Same(now, Step(before, e))
    ensures Leads(now, rest, goal)
    ensures !now.valid ==> Same(now, goal)
    ensures now.valid && (before.contexts == [] ==> Starts(e)) ==>
      |now.contexts| == |before.contexts| + Deeper(e)
  {
    SchemaProof.RunOne(before, e);
    LeadsOn(before, now, [e], rest, goal);
    if now.valid && (before.contexts == [] ==> Starts(e)) {
      DepthAfter(before, e);
    }
  }

  /** The event of a value that is no container. */
  method AcceptLeaf(x: Value, handler: StreamValidator) returns (ok: bool)
    requires handler.Valid() && !x.ArrayValue? && !x.ObjectValue?
    modifies handler
    ensures handler.Valid() && ok == handler.valid
    ensures Same(handler.Now(), Step(old(handler.Now()), SchemaProof.LeafEvent(x)))
  {
    match x {
      case NullValue => ok := handler.Null();
      case BoolValue(b) => ok := handler.Bool(b);
      case StringValue(str) => ok := handler.String(str);
      case DoubleValue(literal) => ok := handler.Double(literal);
      case NumberValue(word, flags) =>
        if flags.int32 {
          ok := handler.Int(LowInt(word));
        } else if flags.uint32 {
          ok := handler.Uint(word % 0x1_0000_0000);
        } else if flags.int64 {
          ok := handler.Int64(SignedWord(word));
        } else {
          ok := handler.Uint64(word);
        }
    }
  }

  /** Hands a value's events over, and stops at the first the handler refuses. */
  method Accept(x: Value, handler: StreamValidator) returns (ok: bool)
    requires handler.Valid()
    modifies handler
    ensures handler.Valid() && ok == handler.valid
    ensures Same(handler.Now(), Run(old(handler.Now()), Dom.Accept(x)))
    ensures ok ==> |handler.schemaStack| == old(|handler.schemaStack|)
    decreases x, 1
  {
    if x.ObjectValue? {
      ok := AcceptObject(x.members, handler);
    } else if x.ArrayValue? {
      ok := AcceptArray(x.elements, handler);
    } else {
      LeafIsOne(handler.Now(), x);
      ok := AcceptLeaf(x, handler);
    }
  }

  lemma LeafIsOne(v: Validator, x: Value)
    requires !x.ArrayValue? && !x.ObjectValue?
    ensures Run(v, Dom.Accept(x)) == Step(v, SchemaProof.LeafEvent(x))
    ensures Step(v, SchemaProof.LeafEvent(x)).valid ==>
      |Step(v, SchemaProof.LeafEvent(x)).contexts| == |v.contexts|
  {
    var e := SchemaProof.LeafEvent(x);
    assert Dom.Accept(x) == [e] && Starts(e) && Deeper(e) == 0;
    SchemaProof.RunOne(v, e);
    if Step(v, e).valid {
      DepthAfter(v, e);
    }
  }

  lemma MemberRest(members: seq<Member>, i: nat, end: Event)
    requires i < |members|
    ensures GenerateMembers(members, i, false) + [end]
      == [Key(members[i].name)] + Dom.Accept(members[i].value) + (GenerateMembers(members, i + 1, false) + [end])
  {
  }

  lemma ElementRest(elements: seq<Value>, i: nat, end: Event)
    requires i < |elements|
    ensures GenerateElements(elements, i, false) + [end]
      == Dom.Accept(elements[i]) + (GenerateElements(elements, i + 1, false) + [end])
  {
  }

  method AcceptObject(members: seq<Member>, handler: StreamValidator) returns (ok: bool)
    requires handler.Valid()
    modifies handler
    ensures handler.Valid() && ok == handler.valid
    ensures Same(handler.Now(), Run(old(handler.Now()), Dom.Accept(ObjectValue(members))))
    ensures ok ==> |handler.schemaStack| == old(|handler.schemaStack|)
    decreases members, 0
  {
    ghost var before, end := handler.Now(), EndObject(|members|);
    ghost var goal := Run(before, Dom.Accept(ObjectValue(members)));
    ghost var rest := GenerateMembers(members, 0, false) + [end];
    assert Dom.Accept(ObjectValue(members)) == [StartObject] + rest;
    ok := handler.StartObject();
    LeadsStep(before, handler.Now(), StartObject, rest, goal);
    if !ok {
      return;
    }
    for i := 0 to |members|
      invariant handler.Valid() && handler.valid && |handler.schemaStack| == |before.contexts| + 1
      invariant Leads(handler.Now(), GenerateMembers(members, i, false) + [end], goal)
    {
      MemberRest(members, i, end);
      ok := AcceptMember(members[i], handler, GenerateMembers(members, i + 1, false) + [end], goal);
      if !ok {
        return;
      }
    }
    ghost var last := handler.Now();
    assert GenerateMembers(members, |members|, false) + [end] == [end] + [];
    ok := handler.EndObject(|members|);
    LeadsStep(last, handler.Now(), end, [], goal);
  }

  method AcceptMember(m: Member, handler: StreamValidator, ghost rest: seq<Event>, ghost goal: Validator)
    returns (ok: bool)
    requires handler.Valid() && handler.valid && handler.schemaStack != []
    requires Leads(handler.Now(), [Key(m.name)] + Dom.Accept(m.value) + rest, goal)
    modifies handler
    ensures handler.Valid() && ok == handler.valid && Leads(handler.Now(), rest, goal)
    ensures !ok ==> Same(handler.Now(), goal)
    ensures ok ==> |handler.schemaStack| == old(|handler.schemaStack|)
    decreases m, 2
  {
    ghost var before := handler.Now();
    ghost var own := Dom.Accept(m.value);
    assert [Key(m.name)] + own + rest == [Key(m.name)] + (own + rest);
    ok := handler.Key(m.name);
    LeadsStep(before, handler.Now(), Key(m.name), own + rest, goal);
    if !ok {
      SchemaProof.RunRefused(handler.Now(), rest);
      return;
    }
    ghost var named := handler.Now();
    ok := Accept(m.value, handler);
    LeadsOn(named, handler.Now(), own, rest, goal);
  }

  method AcceptArray(elements: seq<Value>, handler: StreamValidator) returns (ok: bool)
    requires handler.Valid()
    modifies handler
    ensures handler.Valid() && ok == handler.valid
    ensures Same(handler.Now(), Run(old(handler.Now()), Dom.Accept(ArrayValue(elements))))
    ensures ok ==> |handler.schemaStack| == old(|handler.schemaStack|)
    decreases elements, 0
  {
    ghost var before, end := handler.Now(), EndArray(|elements|);
    ghost var goal := Run(before, Dom.Accept(ArrayValue(elements)));
    ghost var rest := GenerateElements(elements, 0, false) + [end];
    assert Dom.Accept(ArrayValue(elements)) == [StartArray] + rest;
    ok := handler.StartArray();
    LeadsStep(before, handler.Now(), StartArray, rest, goal);
    if !ok {
      return;
    }
    for i := 0 to |elements|
      invariant handler.Valid() && handler.valid && |handler.schemaStack| == |before.contexts| + 1
      invariant Leads(handler.Now(), GenerateElements(elements, i, false) + [end], goal)
    {
      ghost var current, others := handler.Now(), GenerateElements(elements, i + 1, false) + [end];
      ElementRest(elements, i, end);
      ok := Accept(elements[i], handler);
      LeadsOn(current, handler.Now(), Dom.Accept(elements[i]), others, goal);
      if !ok {
        return;
      }
    }
    ghost var last := handler.Now();
    assert GenerateElements(elements, |elements|, false) + [end] == [end] + [];
    ok := handler.EndArray(|elements|);
    LeadsStep(last, handler.Now(), end, [], goal);
  }

  /** A fresh validator that a value hands its events to answers whether the value satisfies the schema. */
  method Validate(root: Schema, x: Value) returns (ok: bool)
    requires Compiled(root) && WellFormed(x)
    ensures ok == Satisfies(root, x)
  {
    var handler := new StreamValidator(root);
    ok := Accept(x, handler);
    SchemaProof.StreamingAgrees(root, x);
  }
}
