/** The streaming validator: it follows the events of a value and passes them on to every parallel validator. */
module SchemaValidator {
  import opened Bytes
  import opened Sax
  import opened Numbers
  import opened Schema

  /** The state of one open value: its schema, the parallel validators for it, and where its parts stand. */
  datatype Context = Context(
    schema: Schema,
    valueSchema: Option<Schema>,
    validators: seq<Validator>,
    arrayElementIndex: nat,
    propertyExist: seq<bool>,
    inArray: bool)

  /** A validator: the contexts of the values that are open, innermost last, and the verdict so far. */
  datatype Validator = Validator(root: Schema, contexts: seq<Context>, valid: bool)

  function NewValidator(root: Schema): Validator {
    Validator(root, [], true)
  }

  // ---------------------------------------------------------------- Parallel validators

  /** The schemas with a slot of their own, in slot order. */
  function Parallel(s: Schema): (schemas: seq<Schema>)
    ensures |schemas| == |s.allOf| + |s.anyOf| + |s.oneOf| + if s.not_.Some? then 1 else 0
  {
    s.allOf + s.anyOf + s.oneOf + if s.not_.Some? then [s.not_.value] else []
  }

  function NewValidators(schemas: seq<Schema>): (validators: seq<Validator>)
    ensures |validators| == |schemas|
    ensures forall i | 0 <= i < |schemas| :: validators[i] == NewValidator(schemas[i])
  {
    seq(|schemas|, i requires 0 <= i < |schemas| => NewValidator(schemas[i]))
  }

  // ---------------------------------------------------------------- How deep a schema nests

  function Max(a: nat, b: nat): nat {
    if a >= b then a else b
  }

  /** Every schema is higher than the schemas in it. */
  function Height(s: Schema): (h: nat)
    ensures h > 0
    decreases s, 1
  {
    1 + Max(Highest(s.allOf), Max(Highest(s.anyOf), Max(Highest(s.oneOf), Max(OptionHeight(s.not_),
      Max(PropertiesHeight(s.properties), Max(OptionHeight(s.additionalPropertiesSchema), ItemsHeight(s.items)))))))
  }

  function OptionHeight(s: Option<Schema>): nat
    decreases s, 0
  {
    match s
    case None => 0
    case Some(t) => Height(t)
  }

  function Highest(schemas: seq<Schema>): (h: nat)
    ensures forall i | 0 <= i < |schemas| :: Height(schemas[i]) <= h
    decreases schemas, 0
  {
    if schemas == [] then 0
    else
      var last := |schemas| - 1;
      assert forall i | 0 <= i < last :: schemas[..last][i] == schemas[i];
      Max(Highest(schemas[..last]), Height(schemas[last]))
  }

  function PropertiesHeight(properties: seq<Property>): (h: nat)
    ensures forall i | 0 <= i < |properties| :: Height(properties[i].schema) <= h
    decreases properties, 0
  {
    if properties == [] then 0
    else
      var last := |properties| - 1;
      assert forall i | 0 <= i < last :: properties[..last][i] == properties[i];
      Max(PropertiesHeight(properties[..last]), Height(properties[last].schema))
  }

  function ItemsHeight(items: Items): nat
    decreases items, 0
  {
    match items
    case AnyItems => 0
    case ItemsList(list) => Height(list)
    case ItemsTuple(tuple, _, additionalItemsSchema) => Max(Highest(tuple), OptionHeight(additionalItemsSchema))
  }

  // ---------------------------------------------------------------- One event

  /** What the schema checks when a value starts. */
  predicate StartAllowed(s: Schema, e: Event) {
    match e
    case Null => s.types.null_
    case Bool(_) => s.types.boolean
    case Int(i) => CheckInt(s, i)
    case Int64(i) => CheckInt(s, i)
    case Uint(u) => CheckUint(s, u)
    case Uint64(u) => CheckUint(s, u)
    case Double(literal) => s.types.number && s.doubleInBounds(literal)
    case String(str) => s.types.string_ && LengthAllowed(s, str)
    case StartObject => s.types.object_
    case StartArray => s.types.array_
    case _ => false
  }

  predicate IsInt64(i: int) {
    -MAX_INT64 - 1 <= i <= MAX_INT64
  }

  /** The checks of a signed integer: a minimum that is no int64 is above it, such a maximum too. */
  predicate CheckInt(s: Schema, i: int) {
    && (s.types.integer || s.types.number)
    && (s.minimum.BoundAt? ==>
          IsInt64(s.minimum.value) && !(if s.minimum.exclusive then i <= s.minimum.value else i < s.minimum.value))
    && (s.minimum.DoubleBound? ==> s.minimum.allows(i))
    && (s.maximum.BoundAt? && IsInt64(s.maximum.value) ==>
          !(if s.maximum.exclusive then i >= s.maximum.value else i > s.maximum.value))
    && (s.maximum.DoubleBound? ==> s.maximum.allows(i))
  }

  /** The checks of an unsigned integer: a bound that is no uint64 is below it. */
  predicate CheckUint(s: Schema, u: nat) {
    && (s.types.integer || s.types.number)
    && (s.minimum.BoundAt? && s.minimum.value >= 0 ==>
          !(if s.minimum.exclusive then u <= s.minimum.value else u < s.minimum.value))
    && (s.minimum.DoubleBound? ==> s.minimum.allows(u))
    && (s.maximum.DoubleBound? ==> s.maximum.allows(u))
    && (s.maximum.BoundAt? ==>
          s.maximum.value >= 0 && !(if s.maximum.exclusive then u >= s.maximum.value else u > s.maximum.value))
  }

  predicate LengthAllowed(s: Schema, str: bytes) {
    if s.minLength == 0 && s.maxLength == MAX_UINT32 then true
    else
      match CodePoints(str)
      case None => true
      case Some(n) => LengthWithin(s, n)
  }

  predicate HasRequired(s: Schema) {
    exists i | 0 <= i < |s.properties| :: s.properties[i].required
  }

  /** The context of a value that starts with `e`. */
  function Entered(s: Schema, e: Event): Context {
    var exist := if e.StartObject? && HasRequired(s) then seq(|s.properties|, _ => false) else [];
    Context(s, None, NewValidators(Parallel(s)), 0, exist, e.StartArray?)
  }

  /** The contexts once the part that starts next is accounted for, and its schema. */
  function Begin(contexts: seq<Context>, root: Schema): Option<(seq<Context>, Schema)> {
    if contexts == [] then Some(([], root))
    else
      var outer, top := contexts[..|contexts| - 1], contexts[|contexts| - 1];
      if top.inArray then
        match ElementSchema(top.schema, top.arrayElementIndex)
        case None => None
        case Some(t) =>
          Some((outer + [top.(valueSchema := Some(t), arrayElementIndex := top.arrayElementIndex + 1)], t))
      else
        match top.valueSchema
        case None => None
        case Some(t) => Some((contexts, t))
  }

  /** The context after a member name; none when the name is not allowed. */
  function Named(c: Context, name: bytes): Option<Context> {
    match MemberSchema(c.schema, name)
    case None => None
    case Some(t) =>
      var i := FindProperty(c.schema.properties, name);
      var exist := if i.Some? && i.value < |c.propertyExist| then c.propertyExist[i.value := true] else c.propertyExist;
      Some(c.(valueSchema := Some(t), propertyExist := exist))
  }

  predicate NoneMissing(s: Schema, exist: seq<bool>) {
    forall i | 0 <= i < |s.properties| && s.properties[i].required ::
      (i < |exist| && exist[i]) || s.properties[i].schema.defaultValueLength != 0
  }

  /** What the schema checks when an object or array ends. */
  predicate EndAllowed(c: Context, e: Event) {
    match e
    case EndObject(n) => NoneMissing(c.schema, c.propertyExist) && c.schema.minProperties <= n <= c.schema.maxProperties
    case EndArray(n) => c.schema.minItems <= n <= c.schema.maxItems
    case _ => true
  }

  predicate AllTrue(verdicts: seq<bool>) {
    forall i | 0 <= i < |verdicts| :: verdicts[i]
  }

  predicate AnyTrue(verdicts: seq<bool>) {
    exists i | 0 <= i < |verdicts| :: verdicts[i]
  }

  predicate OneTrue(verdicts: seq<bool>) {
    exists i | 0 <= i < |verdicts| :: verdicts[i] && forall j | 0 <= j < |verdicts| && j != i :: !verdicts[j]
  }

  /** What the schema checks when a value is complete: the verdicts of the parallel validators, slot by slot. */
  predicate ValueAllowed(s: Schema, verdicts: seq<bool>)
    requires |verdicts| == |Parallel(s)|
  {
    var anyOf := |s.allOf|;
    var oneOf := anyOf + |s.anyOf|;
    var not_ := oneOf + |s.oneOf|;
    && AllTrue(verdicts[..anyOf])
    && (s.anyOf != [] ==> AnyTrue(verdicts[anyOf..oneOf]))
    && (s.oneOf != [] ==> OneTrue(verdicts[oneOf..not_]))
    && (s.not_.Some? ==> !verdicts[not_])
  }

  function Verdicts(validators: seq<Validator>): (verdicts: seq<bool>)
    ensures |verdicts| == |validators|
  {
    seq(|validators|, i requires 0 <= i < |validators| => validators[i].valid)
  }

  /** The end of a value, whose context is popped. */
  function Complete(v: Validator, contexts: seq<Context>): Validator
    requires contexts != []
  {
    var top := contexts[|contexts| - 1];
    if |top.validators| == |Parallel(top.schema)| && ValueAllowed(top.schema, Verdicts(top.validators)) then
      v.(contexts := contexts[..|contexts| - 1])
    else
      v.(valid := false)
  }

  predicate Starts(e: Event) {
    !e.Key? && !e.EndObject? && !e.EndArray?
  }

  /** One event. A verdict of false is final. */
  function Step(v: Validator, e: Event): Validator
    decreases Height(v.root), 2
  {
    if !v.valid then v
    else if Starts(e) then
      match Begin(v.contexts, v.root)
      case None => v.(valid := false)
      case Some((contexts, t)) =>
        if !StartAllowed(t, e) then v.(valid := false)
        else
          var passed := Forward(contexts + [Entered(t, e)], e, Height(v.root));
          if e.StartObject? || e.StartArray? then v.(contexts := passed) else Complete(v, passed)
    else if v.contexts == [] then
      v.(valid := false)
    else if e.Key? then
      match Named(v.contexts[|v.contexts| - 1], e.name)
      case None => v.(valid := false)
      case Some(top) => v.(contexts := Forward(v.contexts[..|v.contexts| - 1] + [top], e, Height(v.root)))
    else
      var passed := Forward(v.contexts, e, Height(v.root));
      var top := passed[|passed| - 1].(inArray := false);
      if !EndAllowed(top, e) then v.(valid := false)
      else Complete(v, passed[..|passed| - 1] + [top])
  }

  /** Passes an event to the parallel validators of every open value. */
  function Forward(contexts: seq<Context>, e: Event, height: nat): (r: seq<Context>)
    ensures |r| == |contexts|
    decreases height, 1, |contexts|
  {
    if contexts == [] then []
    else
      var last := |contexts| - 1;
      Forward(contexts[..last], e, height)
      + [contexts[last].(validators := PassOn(contexts[last].validators, e, height))]
  }

  /** Parallel validators belong to lower schemas, so the guard never refuses. */
  function PassOn(validators: seq<Validator>, e: Event, height: nat): (r: seq<Validator>)
    ensures |r| == |validators|
    decreases height, 0, |validators|
  {
    if validators == [] then []
    else
      var last := |validators| - 1;
      var v := validators[last];
      PassOn(validators[..last], e, height) + [if Height(v.root) < height then Step(v, e) else v]
  }

  function Run(v: Validator, events: seq<Event>): Validator
    decreases |events|
  {
    if events == [] then v else Run(Step(v, events[0]), events[1..])
  }
}
