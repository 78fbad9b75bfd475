/** Compiled schemas, and when a value satisfies one: the recursive definition the validator is held against. */
module Schema {
  import opened Bytes
  import opened Numbers
  import opened Dom
  import Utf8

  /** The type mask; `number` allows integers too. */
  datatype Types = Types(null_: bool, boolean: bool, object_: bool, array_: bool, string_: bool, number: bool,
                         integer: bool)

  /** A name of a schema; one only in `required` is not declared and has the schema that asks for nothing. */
  datatype Property = Property(name: bytes, schema: Schema, required: bool, declared: bool)

  /** One schema for all elements, one for each position, or nothing said. */
  datatype Items =
    | AnyItems
    | ItemsList(list: Schema)
    | ItemsTuple(tuple: seq<Schema>, additionalItems: bool, additionalItemsSchema: Option<Schema>)

  /**
   A bound on numbers: an integer of the 64-bit type that holds it, or a double, of which only is known which
   integers, turned into doubles, it allows.
   */
  datatype Bound = NoBound | BoundAt(value: int, exclusive: bool) | DoubleBound(allows: int -> bool)

  datatype Schema = Schema(
    types: Types,
    allOf: seq<Schema>,
    anyOf: seq<Schema>,
    oneOf: seq<Schema>,
    not_: Option<Schema>,
    properties: seq<Property>,
    additionalProperties: bool,
    additionalPropertiesSchema: Option<Schema>,
    minProperties: nat,
    maxProperties: nat,
    items: Items,
    minItems: nat,
    maxItems: nat,
    minLength: nat,
    maxLength: nat,
    minimum: Bound,
    maximum: Bound,
    doubleInBounds: bytes -> bool,
    defaultValueLength: nat)

  const ALL_TYPES := Types(true, true, true, true, true, true, true)

  /** The schema that asks for nothing. */
  const TYPELESS: Schema := Schema(ALL_TYPES, [], [], [], None, [], true, None, 0, MAX_UINT32, AnyItems, 0, MAX_UINT32,
                                   0, MAX_UINT32, NoBound, NoBound, _ => true, 0)

  /** How many code points a string holds; none when it is not well-formed. */
  function CodePoints(s: bytes, i: nat := 0): Option<nat>
    requires i <= |s|
    decreases |s| - i
  {
    if i == |s| then Some(0)
    else
      var n := Utf8.CharLength(s, i);
      if n == 0 then None
      else
        match CodePoints(s, i + n)
        case None => None
        case Some(rest) => Some(1 + rest)
  }

  // ---------------------------------------------------------------- Choosing the schema of a part

  function FindProperty(properties: seq<Property>, name: bytes, i: nat := 0): (r: Option<nat>)
    requires i <= |properties|
    ensures r.Some? ==> i <= r.value < |properties| && properties[r.value].name == name
    ensures r.None? ==> forall k | i <= k < |properties| :: properties[k].name != name
    decreases |properties| - i
  {
    if i == |properties| then None
    else if properties[i].name == name then Some(i)
    else FindProperty(properties, name, i + 1)
  }

  /** The schema for the value of a member whose name the schema does not have. */
  function AdditionalSchema(s: Schema): Option<Schema> {
    if s.additionalPropertiesSchema.Some? then s.additionalPropertiesSchema
    else if s.additionalProperties then Some(TYPELESS)
    else None
  }

  /** The schema for the value of a member; none when the member is not allowed. */
  function MemberSchema(s: Schema, name: bytes): Option<Schema> {
    match FindProperty(s.properties, name)
    case Some(i) => Some(s.properties[i].schema)
    case None => AdditionalSchema(s)
  }

  /**
   The schema for the element at an index; none when there may be no such element. An empty tuple has no storage and
   is taken for no tuple at all.
   */
  function ElementSchema(s: Schema, index: nat): Option<Schema> {
    match s.items
    case AnyItems => Some(TYPELESS)
    case ItemsList(list) => Some(list)
    case ItemsTuple(tuple, additionalItems, additionalItemsSchema) =>
      if tuple == [] then Some(TYPELESS)
      else if index < |tuple| then Some(tuple[index])
      else if additionalItemsSchema.Some? then additionalItemsSchema
      else if additionalItems then Some(TYPELESS)
      else None
  }

  // ---------------------------------------------------------------- Satisfying

  predicate AboveMinimum(bound: Bound, i: int) {
    match bound
    case NoBound => true
    case BoundAt(value, exclusive) => if exclusive then i > value else i >= value
    case DoubleBound(allows) => allows(i)
  }

  predicate BelowMaximum(bound: Bound, i: int) {
    match bound
    case NoBound => true
    case BoundAt(value, exclusive) => if exclusive then i < value else i <= value
    case DoubleBound(allows) => allows(i)
  }

  /** The greatest 32-bit length stands for no limit. */
  predicate LengthWithin(s: Schema, length: nat) {
    s.minLength <= length && (length <= s.maxLength || s.maxLength == MAX_UINT32)
  }

  /** What a schema asks of a value by itself: type, numeric bounds, length and size. */
  predicate Local(s: Schema, v: Value) {
    match v
    case NullValue => s.types.null_
    case BoolValue(_) => s.types.boolean
    case NumberValue(word, flags) =>
      var i := Numeric(word, flags);
      (s.types.integer || s.types.number) && AboveMinimum(s.minimum, i) && BelowMaximum(s.maximum, i)
    case DoubleValue(literal) => s.types.number && s.doubleInBounds(literal)
    case StringValue(str) =>
      s.types.string_ && (CodePoints(str).Some? ==> LengthWithin(s, CodePoints(str).value))
    case ArrayValue(elements) => s.types.array_ && s.minItems <= |elements| <= s.maxItems
    case ObjectValue(members) => s.types.object_ && s.minProperties <= |members| <= s.maxProperties
  }

  ghost predicate Present(members: seq<Member>, name: bytes) {
    exists k | 0 <= k < |members| :: members[k].name == name
  }

  /** Every required name is present, unless the property has a default. */
  ghost predicate RequiredPresent(s: Schema, members: seq<Member>) {
    forall i | 0 <= i < |s.properties| && s.properties[i].required ::
      Present(members, s.properties[i].name) || s.properties[i].schema.defaultValueLength != 0
  }

  /** A value satisfies a schema by itself, in its parts, and in what the schema combines. */
  ghost predicate Satisfies(s: Schema, v: Value)
    decreases v, s
  {
    Local(s, v) && Parts(s, v) && Combined(s, v)
  }

  ghost predicate Parts(s: Schema, v: Value)
    decreases v, s, 0
  {
    match v
    case ArrayValue(elements) =>
      forall i | 0 <= i < |elements| ::
        ElementSchema(s, i).Some? && Satisfies(ElementSchema(s, i).value, elements[i])
    case ObjectValue(members) =>
      && (forall k | 0 <= k < |members| ::
            MemberSchema(s, members[k].name).Some?
            && Satisfies(MemberSchema(s, members[k].name).value, members[k].value))
      && RequiredPresent(s, members)
    case _ => true
  }

  ghost predicate Combined(s: Schema, v: Value)
    decreases v, s, 0
  {
    && AllOf(s.allOf, v)
    && (s.anyOf != [] ==> AnyOf(s.anyOf, v))
    && (s.oneOf != [] ==> ExactlyOne(s.oneOf, v))
    && (s.not_.Some? ==> !Satisfies(s.not_.value, v))
  }

  ghost predicate AllOf(schemas: seq<Schema>, v: Value)
    decreases v, schemas
  {
    forall i | 0 <= i < |schemas| :: Satisfies(schemas[i], v)
  }

  ghost predicate AnyOf(schemas: seq<Schema>, v: Value)
    decreases v, schemas
  {
    exists i | 0 <= i < |schemas| :: Satisfies(schemas[i], v)
  }

  ghost predicate ExactlyOne(schemas: seq<Schema>, v: Value)
    decreases v, schemas
  {
    exists i | 0 <= i < |schemas| :: Satisfies(schemas[i], v) && forall j | 0 <= j < |schemas| && j != i ::
      !Satisfies(schemas[j], v)
  }

  // ---------------------------------------------------------------- Compiled schemas

  /** What compiling ensures at every level: property names are distinct, and bounds are 64-bit integers. */
  ghost predicate Compiled(s: Schema)
    decreases s, 1
  {
    && (forall i, j | 0 <= i < j < |s.properties| :: s.properties[i].name != s.properties[j].name)
    && BoundFits(s.minimum) && BoundFits(s.maximum)
    && s.maxLength <= MAX_UINT32
    && (forall i | 0 <= i < |s.allOf| :: Compiled(s.allOf[i]))
    && (forall i | 0 <= i < |s.anyOf| :: Compiled(s.anyOf[i]))
    && (forall i | 0 <= i < |s.oneOf| :: Compiled(s.oneOf[i]))
    && OptionCompiled(s.not_)
    && (forall i | 0 <= i < |s.properties| :: Compiled(s.properties[i].schema))
    && OptionCompiled(s.additionalPropertiesSchema)
    && ItemsCompiled(s.items)
  }

  ghost predicate OptionCompiled(s: Option<Schema>)
    decreases s, 0
  {
    s.Some? ==> Compiled(s.value)
  }

  ghost predicate ItemsCompiled(items: Items)
    decreases items, 0
  {
    match items
    case AnyItems => true
    case ItemsList(list) => Compiled(list)
    case ItemsTuple(tuple, _, additionalItemsSchema) =>
      (forall i | 0 <= i < |tuple| :: Compiled(tuple[i])) && OptionCompiled(additionalItemsSchema)
  }

  predicate BoundFits(bound: Bound) {
    bound.BoundAt? ==> -MAX_INT64 - 1 <= bound.value <= MAX_UINT64
  }
}
