/**
 The keywords of a compiled schema as Draft 4 reads them, and where the library differs: a required property whose
 default is a nonempty string may be missing, an empty tuple of items is taken for no tuple, names that occur only
 in `required` are not additional, and a whole number beyond 64 bits is a double and no integer. Bounds on doubles,
 and the length of strings that are not well-formed, are read as the library reads them.
 */
module SchemaDraft {
  import opened Bytes
  import opened Sax
  import opened Numbers
  import opened Dom
  import opened Schema
  import Utf8

  /** Section 3.5 of the core specification: an integer is a number without fraction and exponent. */
  predicate IsWhole(literal: bytes) {
    DOT !in literal && 0x65 !in literal && 0x45 !in literal
  }

  /** How many characters a well-formed string has: all its bytes but those that continue a character. */
  function Characters(str: bytes): (n: nat) {
    if str == [] then 0 else Characters(str[..|str| - 1]) + if 0x80 <= str[|str| - 1] <= 0xBF then 0 else 1
  }

  /** Sections 5.1.2 and 5.1.3: an upper and a lower bound, the bound itself included unless it is exclusive. */
  ghost predicate DraftBounds(minimum: Bound, maximum: Bound, i: int) {
    && (minimum.BoundAt? ==> minimum.value < i || (minimum.value == i && !minimum.exclusive))
    && (maximum.BoundAt? ==> i < maximum.value || (i == maximum.value && !maximum.exclusive))
    && (minimum.DoubleBound? ==> minimum.allows(i)) && (maximum.DoubleBound? ==> maximum.allows(i))
  }

  /**
   Section 5.5.2 for the type, where every whole number is an integer, however large, and sections 5.1.2 and 5.1.3
   for numbers, 5.2.1 and 5.2.2 for strings, 5.3.2 and 5.3.3 for arrays, and 5.4.1 and 5.4.2 for objects. A length of
   2^32 - 1 stands for no limit.
   */
  ghost predicate DraftLocal(s: Schema, v: Value) {
    match v
    case NullValue => s.types.null_
    case BoolValue(_) => s.types.boolean
    case NumberValue(word, flags) =>
      (s.types.number || s.types.integer) && DraftBounds(s.minimum, s.maximum, Numeric(word, flags))
    case DoubleValue(literal) =>
      (s.types.number || (s.types.integer && IsWhole(literal))) && s.doubleInBounds(literal)
    case StringValue(str) =>
      s.types.string_
      && (Utf8.WellFormed(str) ==>
            s.minLength <= Characters(str) && (s.maxLength != 0xFFFF_FFFF ==> Characters(str) <= s.maxLength))
    case ArrayValue(elements) => s.types.array_ && s.minItems <= |elements| && |elements| <= s.maxItems
    case ObjectValue(members) => s.types.object_ && s.minProperties <= |members| && |members| <= s.maxProperties
  }

  /** The first property of a name that stands under `properties`. */
  function Declared(properties: seq<Property>, name: bytes): (schema: Option<Schema>)
    decreases |properties|
  {
    if properties == [] then None
    else if properties[0].declared && properties[0].name == name then Some(properties[0].schema)
    else Declared(properties[1..], name)
  }

  /** Section 5.4.4: names that are not under `properties` are additional. */
  function DraftMemberSchema(s: Schema, name: bytes): Option<Schema> {
    if Declared(s.properties, name).Some? then Declared(s.properties, name)
    else if s.additionalPropertiesSchema.Some? then s.additionalPropertiesSchema
    else if s.additionalProperties then Some(TYPELESS)
    else None
  }

  /** Section 5.3.1: beyond the tuple `additionalItems` decides, also when the tuple is empty. */
  function DraftElementSchema(s: Schema, index: nat): Option<Schema> {
    match s.items
    case AnyItems => Some(TYPELESS)
    case ItemsList(list) => Some(list)
    case ItemsTuple(tuple, additionalItems, additionalItemsSchema) =>
      if index < |tuple| then Some(tuple[index])
      else if additionalItemsSchema.Some? then additionalItemsSchema
      else if additionalItems then Some(TYPELESS)
      else None
  }

  /** Section 5.4.3: every required name is present. */
  ghost predicate AllRequiredPresent(s: Schema, members: seq<Member>) {
    forall p | p in s.properties && p.required :: exists m | m in members :: m.name == p.name
  }

  ghost predicate DraftSatisfies(s: Schema, v: Value)
    decreases v, s
  {
    DraftLocal(s, v) && DraftParts(s, v) && DraftCombined(s, v)
  }

  ghost predicate DraftParts(s: Schema, v: Value)
    decreases v, s, 0
  {
    match v
    case ArrayValue(elements) =>
      forall i | 0 <= i < |elements| ::
        DraftElementSchema(s, i).Some? && DraftSatisfies(DraftElementSchema(s, i).value, elements[i])
    case ObjectValue(members) =>
      && (forall k | 0 <= k < |members| :: DraftMember(s, members[k]))
      && AllRequiredPresent(s, members)
    case _ => true
  }

  ghost predicate DraftMember(s: Schema, m: Member)
    decreases m, s, 1
  {
    DraftMemberSchema(s, m.name).Some? && DraftSatisfies(DraftMemberSchema(s, m.name).value, m.value)
  }

  ghost predicate DraftCombined(s: Schema, v: Value)
    decreases v, s, 0
  {
    && DraftAllOf(s.allOf, v)
    && (s.anyOf != [] ==> DraftAnyOf(s.anyOf, v))
    && (s.oneOf != [] ==> DraftExactlyOne(s.oneOf, v))
    && (s.not_.Some? ==> !DraftSatisfies(s.not_.value, v))
  }

  ghost predicate DraftAllOf(schemas: seq<Schema>, v: Value)
    decreases v, schemas
  {
    forall i | 0 <= i < |schemas| :: DraftSatisfies(schemas[i], v)
  }

  ghost predicate DraftAnyOf(schemas: seq<Schema>, v: Value)
    decreases v, schemas
  {
    exists i | 0 <= i < |schemas| :: DraftSatisfies(schemas[i], v)
  }

  ghost predicate DraftExactlyOne(schemas: seq<Schema>, v: Value)
    decreases v, schemas
  {
    exists i | 0 <= i < |schemas| :: DraftSatisfies(schemas[i], v) && forall j | 0 <= j < |schemas| && j != i ::
      !DraftSatisfies(schemas[j], v)
  }

  // ---------------------------------------------------------------- Where the two differ

  /** A required name is missing, and each that is missing has a default. */
  ghost predicate OnlyDefaultsMissing(s: Schema, members: seq<Member>) {
    !AllRequiredPresent(s, members)
    && forall i | 0 <= i < |s.properties| && s.properties[i].required && !Present(members, s.properties[i].name) ::
         s.properties[i].schema.defaultValueLength != 0
  }

  /** The two readings of `required` differ on an object exactly when only names with a default are missing. */
  lemma RequiredExactly(s: Schema, members: seq<Member>)
    ensures (RequiredPresent(s, members) <==> AllRequiredPresent(s, members)) <==> !OnlyDefaultsMissing(s, members)
  {
    forall p | p in s.properties
      ensures Present(members, p.name) <==> exists m | m in members :: m.name == p.name
    {
      PresentIsMember(members, p.name);
    }
    if forall i | 0 <= i < |s.properties| && s.properties[i].required :: Present(members, s.properties[i].name) {
      assert AllRequiredPresent(s, members);
    }
  }

  lemma PresentIsMember(members: seq<Member>, name: bytes)
    ensures Present(members, name) <==> exists m | m in members :: m.name == name
  {
    if m :| m in members && m.name == name {
      var k :| 0 <= k < |members| && members[k] == m;
    }
  }

  /** The tuple is empty and something is said about elements beyond it. */
  ghost predicate EmptyTupleMatters(s: Schema) {
    s.items.ItemsTuple? && s.items.tuple == []
    && if s.items.additionalItemsSchema.Some? then s.items.additionalItemsSchema.value != TYPELESS
       else !s.items.additionalItems
  }

  /** The two readings of `items` differ exactly for an empty tuple. */
  lemma ItemsExactly(s: Schema, index: nat)
    ensures ElementSchema(s, index) == DraftElementSchema(s, index) <==> !EmptyTupleMatters(s)
  {
  }

  /** The name occurs only in `required`, and something is said about additional properties. */
  ghost predicate OnlyRequired(s: Schema, name: bytes) {
    var i := FindProperty(s.properties, name);
    i.Some? && !s.properties[i.value].declared && AdditionalSchema(s) != Some(s.properties[i.value].schema)
  }

  /** What compiling ensures: each name stands once. */
  ghost predicate NamesDistinct(properties: seq<Property>) {
    forall i, j | 0 <= i < j < |properties| :: properties[i].name != properties[j].name
  }

  lemma {:induction false} DeclaredIs(properties: seq<Property>, name: bytes, i: nat)
    requires NamesDistinct(properties) && i <= |properties|
    ensures
      var r := FindProperty(properties, name, i);
      Declared(properties[i..], name)
      == if r.Some? && properties[r.value].declared then Some(properties[r.value].schema) else None
    decreases |properties| - i
  {
    if i < |properties| {
      assert properties[i..][1..] == properties[i + 1..];
      DeclaredIs(properties, name, i + 1);
    }
  }

  /** The two readings of a name differ exactly when it is such a name. */
  lemma MembersExactly(s: Schema, name: bytes)
    requires NamesDistinct(s.properties)
    ensures MemberSchema(s, name) == DraftMemberSchema(s, name) <==> !OnlyRequired(s, name)
  {
    assert s.properties[0..] == s.properties;
    DeclaredIs(s.properties, name, 0);
  }

  /** Integers are allowed and other numbers are not. */
  predicate IntegerOnly(s: Schema) {
    s.types.integer && !s.types.number
  }

  /** The two readings of a value by itself differ exactly for a whole number, kept as a double, among integers. */
  lemma LocalExactly(s: Schema, v: Value)
    ensures (Local(s, v) <==> DraftLocal(s, v))
       <==> !(IntegerOnly(s) && v.DoubleValue? && IsWhole(v.literal) && s.doubleInBounds(v.literal))
  {
    if v.StringValue? {
      CodePointsAre(v.str, 0);
      assert v.str[0..] == v.str;
    }
  }

  lemma {:induction false} CharactersSplit(a: bytes, b: bytes)
    ensures Characters(a + b) == Characters(a) + Characters(b)
    decreases |b|
  {
    if b == [] {
      assert a + b == a;
    } else {
      assert (a + b)[..|a + b| - 1] == a + b[..|b| - 1];
      CharactersSplit(a, b[..|b| - 1]);
    }
  }

  /** One character counts once. */
  lemma OneCharacter(str: bytes, i: nat)
    requires i < |str| && Utf8.CharLength(str, i) != 0
    ensures Characters(str[i..i + Utf8.CharLength(str, i)]) == 1
  {
    var n := Utf8.CharLength(str, i);
    var c := str[i..i + n];
    assert Characters(c[..0]) == 0;
    assert c[..1][..0] == c[..0] && Characters(c[..1]) == 1;
    if n > 1 {
      assert c[..2][..1] == c[..1] && Characters(c[..2]) == 1;
    }
    if n > 2 {
      assert c[..3][..2] == c[..2] && Characters(c[..3]) == 1;
    }
    if n > 3 {
      assert c[..4][..3] == c[..3] && Characters(c[..4]) == 1;
    }
    assert c[..n] == c;
  }

  /** The text from `i` on is well-formed when it begins with a character and what follows is. */
  lemma WellFormedFrom(str: bytes, i: nat)
    requires i < |str|
    ensures
      var n := Utf8.CharLength(str, i);
      Utf8.WellFormed(str[i..]) <==> n != 0 && Utf8.WellFormed(str[i + n..])
  {
    var rest := str[i..];
    assert forall k: nat :: Peek(rest, k) == Peek(str, i + k);
    var n := Utf8.CharLength(str, i);
    assert Utf8.CharLength(rest, 0) == n;
    if n != 0 {
      assert rest[n..] == str[i + n..];
    }
  }

  /** The count of the validator is the number of characters, and fails exactly on a string that is not well-formed. */
  lemma {:induction false} CodePointsAre(str: bytes, i: nat)
    requires i <= |str|
    ensures Counted(str, i)
    decreases |str| - i
  {
    if i < |str| {
      var n := Utf8.CharLength(str, i);
      if n != 0 {
        CodePointsAre(str, i + n);
      }
      OneCounted(str, i, n);
    }
  }

  ghost predicate Counted(str: bytes, i: nat)
    requires i <= |str|
  {
    CodePoints(str, i) == if Utf8.WellFormed(str[i..]) then Some(Characters(str[i..])) else None
  }

  /** Both counts go on alike after one character, of `n` bytes. */
  lemma OneCounted(str: bytes, i: nat, n: nat)
    requires i < |str| && n == Utf8.CharLength(str, i) && (n != 0 ==> Counted(str, i + n))
    ensures Counted(str, i)
  {
    WellFormedFrom(str, i);
    if n != 0 {
      CountFrom(str, i, n);
    }
  }

  lemma CountFrom(str: bytes, i: nat, n: nat)
    requires i < |str| && 0 != n == Utf8.CharLength(str, i)
    ensures Characters(str[i..]) == 1 + Characters(str[i + n..])
  {
    OneCharacter(str, i);
    CharactersSplit(str[i..i + n], str[i + n..]);
    assert str[i..i + n] + str[i + n..] == str[i..];
  }

  /** No double in a value, at any depth, is a whole number. */
  ghost predicate IntegersFit(v: Value)
    decreases v
  {
    match v
    case DoubleValue(literal) => !IsWhole(literal)
    case ArrayValue(elements) => forall i | 0 <= i < |elements| :: IntegersFit(elements[i])
    case ObjectValue(members) => forall k | 0 <= k < |members| :: IntegersFit(members[k].value)
    case _ => true
  }

  /**
   At no level are there a required property with a default, an empty tuple that matters, or a name only in
   `required` that additional properties are said about; nor, unless all integers of the values fit 64 bits, a type
   that allows integers only.
   */
  ghost predicate Standard(s: Schema, fit: bool)
    decreases s, 1
  {
    && NamesDistinct(s.properties)
    && (forall i | 0 <= i < |s.properties| :: StandardProperty(s, s.properties[i]))
    && !EmptyTupleMatters(s)
    && (fit || !IntegerOnly(s))
    && (forall i | 0 <= i < |s.allOf| :: Standard(s.allOf[i], fit))
    && (forall i | 0 <= i < |s.anyOf| :: Standard(s.anyOf[i], fit))
    && (forall i | 0 <= i < |s.oneOf| :: Standard(s.oneOf[i], fit))
    && OptionStandard(s.not_, fit)
    && (forall i | 0 <= i < |s.properties| :: Standard(s.properties[i].schema, fit))
    && OptionStandard(s.additionalPropertiesSchema, fit)
    && ItemsStandard(s.items, fit)
  }

  ghost predicate StandardProperty(s: Schema, p: Property) {
    && (p.required ==> p.schema.defaultValueLength == 0)
    && (!p.declared ==> AdditionalSchema(s) == Some(p.schema))
  }

  ghost predicate OptionStandard(s: Option<Schema>, fit: bool)
    decreases s, 0
  {
    s.Some? ==> Standard(s.value, fit)
  }

  ghost predicate ItemsStandard(items: Items, fit: bool)
    decreases items, 0
  {
    match items
    case AnyItems => true
    case ItemsList(list) => Standard(list, fit)
    case ItemsTuple(tuple, _, additionalItemsSchema) =>
      (forall i | 0 <= i < |tuple| :: Standard(tuple[i], fit)) && OptionStandard(additionalItemsSchema, fit)
  }

  lemma TypelessIsStandard(fit: bool)
    ensures Standard(TYPELESS, fit)
  {
    assert TYPELESS.properties == [] && TYPELESS.allOf == [] && TYPELESS.anyOf == [] && TYPELESS.oneOf == [];
    assert OptionStandard(TYPELESS.not_, fit) && OptionStandard(TYPELESS.additionalPropertiesSchema, fit);
    assert ItemsStandard(TYPELESS.items, fit);
  }

  lemma ElementStandard(s: Schema, fit: bool, index: nat)
    requires Standard(s, fit) && ElementSchema(s, index).Some?
    ensures Standard(ElementSchema(s, index).value, fit)
  {
    TypelessIsStandard(fit);
    assert ItemsStandard(s.items, fit);
    match s.items {
      case AnyItems =>
      case ItemsList(list) =>
      case ItemsTuple(tuple, _, additionalItemsSchema) =>
        assert OptionStandard(additionalItemsSchema, fit) && forall i | 0 <= i < |tuple| :: Standard(tuple[i], fit);
    }
  }

  lemma MemberStandard(s: Schema, fit: bool, name: bytes)
    requires Standard(s, fit)
    ensures MemberSchema(s, name) == DraftMemberSchema(s, name)
    ensures MemberSchema(s, name).Some? ==> Standard(MemberSchema(s, name).value, fit)
  {
    TypelessIsStandard(fit);
    MembersExactly(s, name);
    assert OptionStandard(s.additionalPropertiesSchema, fit);
    var i := FindProperty(s.properties, name);
    if i.Some? {
      assert StandardProperty(s, s.properties[i.value]) && Standard(s.properties[i.value].schema, fit);
    }
  }

  /**
   On every schema in which the readings of no keyword differ the library's verdict is the draft's; when all whole
   numbers of the value fit 64 bits, types that allow integers only are no difference.
   */
  lemma {:induction false} DraftAgrees(s: Schema, v: Value, fit: bool)
    requires Standard(s, fit) && (fit ==> IntegersFit(v))
    ensures Satisfies(s, v) <==> DraftSatisfies(s, v)
    decreases v, s, 1
  {
    LocalExactly(s, v);
    PartsAgree(s, v, fit);
    CombinedAgree(s, v, fit);
  }

  lemma {:induction false} PartsAgree(s: Schema, v: Value, fit: bool)
    requires Standard(s, fit) && (fit ==> IntegersFit(v))
    ensures Parts(s, v) <==> DraftParts(s, v)
    decreases v, s, 0
  {
    if v.ArrayValue? {
      forall i: nat | i < |v.elements|
        ensures ElementSchema(s, i) == DraftElementSchema(s, i)
        ensures ElementSchema(s, i).Some? ==>
          var t := ElementSchema(s, i).value;
          Satisfies(t, v.elements[i]) <==> DraftSatisfies(t, v.elements[i])
      {
        ItemsExactly(s, i);
        if ElementSchema(s, i).Some? {
          ElementStandard(s, fit, i);
          DraftAgrees(ElementSchema(s, i).value, v.elements[i], fit);
        }
      }
    } else if v.ObjectValue? {
      RequiredStandard(s, fit, v.members);
      forall k | 0 <= k < |v.members|
        ensures MemberSchema(s, v.members[k].name) == DraftMemberSchema(s, v.members[k].name)
        ensures MemberSchema(s, v.members[k].name).Some? ==>
          var t := MemberSchema(s, v.members[k].name).value;
          Satisfies(t, v.members[k].value) <==> DraftSatisfies(t, v.members[k].value)
      {
        MemberStandard(s, fit, v.members[k].name);
        if MemberSchema(s, v.members[k].name).Some? {
          DraftAgrees(MemberSchema(s, v.members[k].name).value, v.members[k].value, fit);
        }
      }
    }
  }

  lemma RequiredStandard(s: Schema, fit: bool, members: seq<Member>)
    requires Standard(s, fit)
    ensures RequiredPresent(s, members) <==> AllRequiredPresent(s, members)
  {
    RequiredExactly(s, members);
    assert forall i | 0 <= i < |s.properties| :: StandardProperty(s, s.properties[i]);
  }

  lemma {:induction false} CombinedAgree(s: Schema, v: Value, fit: bool)
    requires Standard(s, fit) && (fit ==> IntegersFit(v))
    ensures Combined(s, v) <==> DraftCombined(s, v)
    decreases v, s, 0
  {
    SchemasAgree(s.allOf, v, s, fit);
    SchemasAgree(s.anyOf, v, s, fit);
    SchemasAgree(s.oneOf, v, s, fit);
    NotAgrees(s.not_, v, s, fit);
    CombinedFrom(s, v);
  }

  lemma {:induction false} NotAgrees(t: Option<Schema>, v: Value, s: Schema, fit: bool)
    requires t == s.not_ && OptionStandard(t, fit) && (fit ==> IntegersFit(v))
    ensures t.Some? ==> (Satisfies(t.value, v) <==> DraftSatisfies(t.value, v))
    decreases v, t
  {
    if t.Some? {
      DraftAgrees(t.value, v, fit);
    }
  }

  lemma CombinedFrom(s: Schema, v: Value)
    requires AllOf(s.allOf, v) <==> DraftAllOf(s.allOf, v)
    requires AnyOf(s.anyOf, v) <==> DraftAnyOf(s.anyOf, v)
    requires ExactlyOne(s.oneOf, v) <==> DraftExactlyOne(s.oneOf, v)
    requires s.not_.Some? ==> (Satisfies(s.not_.value, v) <==> DraftSatisfies(s.not_.value, v))
    ensures Combined(s, v) <==> DraftCombined(s, v)
  {
  }

  lemma {:induction false} SchemasAgree(schemas: seq<Schema>, v: Value, s: Schema, fit: bool)
    requires schemas == s.allOf || schemas == s.anyOf || schemas == s.oneOf
    requires (forall i | 0 <= i < |schemas| :: Standard(schemas[i], fit)) && (fit ==> IntegersFit(v))
    ensures AllOf(schemas, v) <==> DraftAllOf(schemas, v)
    ensures AnyOf(schemas, v) <==> DraftAnyOf(schemas, v)
    ensures ExactlyOne(schemas, v) <==> DraftExactlyOne(schemas, v)
    decreases v, schemas
  {
    forall i: nat | i < |schemas|
      ensures Satisfies(schemas[i], v) <==> DraftSatisfies(schemas[i], v)
    {
      DraftAgrees(schemas[i], v, fit);
    }
    VerdictsAgree(schemas, v);
  }

  lemma VerdictsAgree(schemas: seq<Schema>, v: Value)
    requires forall i: nat | i < |schemas| :: Satisfies(schemas[i], v) <==> DraftSatisfies(schemas[i], v)
    ensures AllOf(schemas, v) <==> DraftAllOf(schemas, v)
    ensures AnyOf(schemas, v) <==> DraftAnyOf(schemas, v)
    ensures ExactlyOne(schemas, v) <==> DraftExactlyOne(schemas, v)
  {
  }

  /** No array or object has more parts than a 32-bit count can tell. */
  ghost predicate Countable(v: Value)
    decreases v
  {
    match v
    case ArrayValue(elements) =>
      |elements| <= 0xFFFF_FFFF && forall i | 0 <= i < |elements| :: Countable(elements[i])
    case ObjectValue(members) =>
      |members| <= 0xFFFF_FFFF && forall k | 0 <= k < |members| :: Countable(members[k].value)
    case _ => true
  }

  /** What nothing is said about may be anything, in both readings. */
  lemma {:induction false} TypelessAllows(v: Value)
    requires Countable(v)
    ensures Satisfies(TYPELESS, v) && DraftSatisfies(TYPELESS, v)
    decreases v
  {
    if v.ArrayValue? {
      forall i | 0 <= i < |v.elements|
        ensures Satisfies(TYPELESS, v.elements[i])
      {
        TypelessAllows(v.elements[i]);
      }
    } else if v.ObjectValue? {
      forall k | 0 <= k < |v.members|
        ensures Satisfies(TYPELESS, v.members[k].value)
      {
        TypelessAllows(v.members[k].value);
      }
    }
    assert Combined(TYPELESS, v);
    assert Satisfies(TYPELESS, v);
    TypelessIsStandard(false);
    DraftAgrees(TYPELESS, v, false);
  }

  // ---------------------------------------------------------------- Inputs

  const NAME: bytes := [0x61]

  /** A required property whose default is a string of one character, and an object without it. */
  lemma DefaultExempts()
    ensures
      var s := TYPELESS.(properties := [Property(NAME, TYPELESS.(defaultValueLength := 1), true, true)]);
      Satisfies(s, ObjectValue([])) && !DraftSatisfies(s, ObjectValue([]))
  {
    var s := TYPELESS.(properties := [Property(NAME, TYPELESS.(defaultValueLength := 1), true, true)]);
    assert s.properties[0].required && !Present([], s.properties[0].name);
    assert Combined(s, ObjectValue([]));
  }

  /** An empty tuple that allows no further elements, and an array with one. */
  lemma EmptyTupleAllows()
    ensures
      var s := TYPELESS.(items := ItemsTuple([], false, None));
      Satisfies(s, ArrayValue([NullValue])) && !DraftSatisfies(s, ArrayValue([NullValue]))
  {
    var s := TYPELESS.(items := ItemsTuple([], false, None));
    assert DraftElementSchema(s, 0).None? && ElementSchema(s, 0) == Some(TYPELESS);
    assert Combined(TYPELESS, NullValue);
    assert Satisfies(TYPELESS, NullValue);
    assert Combined(s, ArrayValue([NullValue]));
  }

  /** A name only in `required`, no additional properties, and an object that has just that name. */
  lemma RequiredNameAllows()
    ensures
      var s := TYPELESS.(properties := [Property(NAME, TYPELESS, true, false)], additionalProperties := false);
      var v := ObjectValue([Member(NAME, NullValue)]);
      Satisfies(s, v) && !DraftSatisfies(s, v)
  {
    var s := TYPELESS.(properties := [Property(NAME, TYPELESS, true, false)], additionalProperties := false);
    var members := [Member(NAME, NullValue)];
    assert FindProperty(s.properties, NAME) == Some(0);
    DeclaredIs(s.properties, NAME, 0);
    assert s.properties[0..] == s.properties;
    assert MemberSchema(s, NAME) == Some(TYPELESS) && DraftMemberSchema(s, NAME).None?;
    assert Combined(TYPELESS, NullValue);
    assert Satisfies(TYPELESS, NullValue);
    assert members[0].name == NAME && Present(members, NAME);
    assert Combined(s, ObjectValue(members));
    assert !DraftMember(s, members[0]);
  }

  // ---------------------------------------------------------------- Whole numbers beyond 64 bits

  lemma WholeDigits(t: bytes, p: nat, l: Literal)
    requires p <= |t| && ScanNumber(t, p) == Found(l) && l.end == l.intEnd
    ensures IsWhole(t[p..l.end])
  {
    forall i | p <= i < l.end
      ensures t[i] != DOT && t[i] != 0x65 && t[i] != 0x45
    {
      assert i < l.intStart ==> t[i] == MINUS;
    }
  }

  /** A literal is whole exactly when the reader finds no fraction and no exponent in it. */
  lemma WholeIsInteger(t: bytes, p: nat, l: Literal)
    requires p <= |t| && ScanNumber(t, p) == Found(l)
    ensures IsWhole(t[p..l.end]) <==> l.end == l.intEnd
  {
    if l.end == l.intEnd {
      WholeDigits(t, p, l);
    } else if l.fracEnd > l.intEnd {
      assert t[p..l.end][l.intEnd - p] == DOT;
    } else {
      assert t[p..l.end][l.intEnd - p] == t[l.intEnd];
    }
  }

  /** The reader keeps a whole number as a double exactly when it is outside the 64-bit ranges. */
  lemma WholeDoubleExactly(cfg: Config, t: bytes, p: nat, log: seq<Event>, l: Literal)
    requires p <= |t| && ScanNumber(t, p) == Found(l) && IsWhole(t[p..l.end]) && Number(cfg, t, p, log).Fine?
    ensures Number(cfg, t, p, log).log == log + [Double(t[p..l.end])] <==> !InWord(Signed(l.minus, IntegerValue(t, l)))
  {
    WholeIsInteger(t, p, l);
    LiteralIsExact(cfg, t, p, log, l);
    var o := Number(cfg, t, p, log);
    assert o.log[|log|] == o.log[|log|..][0];
  }

  /** Such a number is no integer for the library. */
  lemma BigIntegerRefused(literal: bytes)
    requires IsWhole(literal)
    ensures
      var s := TYPELESS.(types := Types(false, false, false, false, false, false, true));
      !Satisfies(s, DoubleValue(literal)) && DraftSatisfies(s, DoubleValue(literal))
  {
    var s := TYPELESS.(types := Types(false, false, false, false, false, false, true));
    assert DraftCombined(s, DoubleValue(literal));
  }

  /** `2` and `n` zeros. */
  function TwoAndZeros(n: nat): (t: bytes) {
    [0x32] + seq(n, _ => 0x30)
  }

  lemma {:induction false} TwoAndZerosIs(t: bytes, n: nat, k: nat)
    requires k <= n && t == TwoAndZeros(n)
    ensures DigitsValue(t, 0, k + 1) == 2 * Pow10(k)
    decreases k
  {
    if k == 0 {
      assert DigitsValue(t, 0, 0) == 0;
    } else {
      TwoAndZerosIs(t, n, k - 1);
    }
  }

  /** The input: `20000000000000000000` is read as a double, so a schema for integers refuses it. */
  lemma TwentyDigitsAreNoInteger(cfg: Config)
    requires forall log :: cfg.accepts(log)
    requires !cfg.overflows(TwoAndZeros(19))
    ensures
      var t := TwoAndZeros(19);
      var s := TYPELESS.(types := Types(false, false, false, false, false, false, true));
      && Number(cfg, t, 0, []) == Fine(20, [Double(t)])
      && !Satisfies(s, DoubleValue(t)) && DraftSatisfies(s, DoubleValue(t))
  {
    var t := TwoAndZeros(19);
    var l := Literal(false, 0, 20, 20, 20, false, 20);
    DigitsEndIs(t, 0, 20);
    assert ScanNumber(t, 0) == Found(l);
    TwoAndZerosIs(t, 19, 19);
    PowerOfSeventeen();
    Pow10Grows(17, 19);
    assert Pow10(19) == 100 * Pow10(17);
    assert t[0..20] == t;
    WholeIsInteger(t, 0, l);
    LiteralIsExact(cfg, t, 0, [], l);
    BigIntegerRefused(t);
  }
}
