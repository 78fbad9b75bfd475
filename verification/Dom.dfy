/** DOM values, the events a value generates, and the builder that turns parser events into a value. */
module Dom {
  import opened Bytes
  import opened Sax
  import opened Numbers

  const WORD := 0x1_0000_0000_0000_0000

  /** The type flags of a number: which of the four integer types hold it. */
  datatype NumberFlags = NumberFlags(int32: bool, uint32: bool, int64: bool, uint64: bool)

  /** A number keeps 64 bits of data and its flags; a double is kept as the text it was read from. */
  datatype Value =
    | NullValue
    | BoolValue(b: bool)
    | NumberValue(word: nat, flags: NumberFlags)
    | DoubleValue(literal: bytes)
    | StringValue(str: bytes)
    | ArrayValue(elements: seq<Value>)
    | ObjectValue(members: seq<Member>)

  datatype Member = Member(name: bytes, value: Value)

  /** The 64-bit two's complement word of an integer. */
  function Word(i: int): nat {
    i % WORD
  }

  // ---------------------------------------------------------------- Constructors

  function OfInt(i: int): Value
    requires InInt32(i)
  {
    NumberValue(Word(i), if i >= 0 then NumberFlags(true, true, true, true) else NumberFlags(true, false, true, false))
  }

  /** Bit 31 decides whether the value is also an int. */
  function OfUint(u: nat): Value
    requires u <= MAX_UINT32
  {
    NumberValue(u, NumberFlags(u / 0x8000_0000 % 2 == 0, true, true, true))
  }

  function OfInt64(i: int): Value
    requires -MAX_INT64 - 1 <= i <= MAX_INT64
  {
    NumberValue(Word(i),
      if i >= 0 then NumberFlags(i / 0x8000_0000 == 0, i / 0x1_0000_0000 == 0, true, true)
      else NumberFlags(i >= -0x8000_0000, false, true, false))
  }

  function OfUint64(u: nat): Value
    requires u <= MAX_UINT64
  {
    NumberValue(u, NumberFlags(u / 0x8000_0000 == 0, u / 0x1_0000_0000 == 0, u / 0x8000_0000_0000_0000 == 0, true))
  }

  /** The one representation of an integer: its word, and a flag for each type whose range holds it. */
  ghost function Canonical(i: int): Value {
    NumberValue(Word(i), NumberFlags(
      InInt32(i), 0 <= i <= MAX_UINT32, -MAX_INT64 - 1 <= i <= MAX_INT64, 0 <= i <= MAX_UINT64))
  }

  ghost predicate InWord(i: int) {
    -MAX_INT64 - 1 <= i <= MAX_UINT64
  }

  /** All four constructors give the same representation: flags depend on the value, not on the type used. */
  lemma ConstructorsAgree(i: int)
    requires InWord(i)
    ensures InInt32(i) ==> OfInt(i) == Canonical(i)
    ensures 0 <= i <= MAX_UINT32 ==> OfUint(i) == Canonical(i)
    ensures -MAX_INT64 - 1 <= i <= MAX_INT64 ==> OfInt64(i) == Canonical(i)
    ensures 0 <= i <= MAX_UINT64 ==> OfUint64(i) == Canonical(i)
  {
  }

  /** The value an integer event gives the builder. */
  ghost predicate IsIntegerEvent(e: Event, i: int) {
    match e
    case Int(x) => x == i && InInt32(i)
    case Uint(x) => x == i && i <= MAX_UINT32
    case Int64(x) => x == i && -MAX_INT64 - 1 <= i <= MAX_INT64
    case Uint64(x) => x == i && i <= MAX_UINT64
    case _ => false
  }

  function Signed(minus: bool, v: int): int {
    if minus then -v else v
  }

  /**
   A literal without fraction and exponent is delivered with its exact value whenever that is between -2^63 and
   2^64 - 1, by the first type that holds it; only outside is it a double.
   */
  lemma LiteralIsExact(cfg: Config, t: bytes, p: nat, log: seq<Event>, l: Literal)
    requires p <= |t| && ScanNumber(t, p) == Found(l) && l.end == l.intEnd
    ensures
      var i := Signed(l.minus, IntegerValue(t, l));
      var o := Number(cfg, t, p, log);
      var e := IntegerEvent(l.minus, IntegerValue(t, l));
      if InWord(i) then
        && e.Some? && IsIntegerEvent(e.value, i) && o == Emit(cfg, log, e.value, l.end, p)
        && (e.value.Uint? <==> !l.minus && i <= MAX_UINT32) && (e.value.Int? <==> l.minus && InInt32(i))
      else
        o == if cfg.overflows(t[p..l.end]) then Halt(log, NumberTooBig, p)
             else Emit(cfg, log, Double(t[p..l.end]), l.end, p)
  {
    if InWord(Signed(l.minus, IntegerValue(t, l))) {
      NumberInteger(cfg, t, p, log, l, IntegerEvent(l.minus, IntegerValue(t, l)).value);
    } else {
      NumberDouble(cfg, t, p, log, l);
    }
  }

  // ---------------------------------------------------------------- Accept

  /** The low 32 bits read as an int, and all 64 bits read as an int64. */
  function LowInt(word: nat): int {
    var low := word % 0x1_0000_0000;
    if low >= 0x8000_0000 then low - 0x1_0000_0000 else low
  }

  function SignedWord(word: nat): int {
    if word >= 0x8000_0000_0000_0000 then word - WORD else word
  }

  /** The event of a number: the first flag that is set decides which bits are read, and how. */
  function NumberEvent(word: nat, flags: NumberFlags): Event {
    if flags.int32 then Int(LowInt(word))
    else if flags.uint32 then Uint(word % 0x1_0000_0000)
    else if flags.int64 then Int64(SignedWord(word))
    else Uint64(word)
  }

  /** A number's event carries the number, in the first type that holds it: int, unsigned, and the two of 64 bits. */
  lemma NumberEventIs(i: int)
    requires InWord(i)
    ensures
      var e := NumberEvent(Canonical(i).word, Canonical(i).flags);
      && IsIntegerEvent(e, i) && (e.Int? <==> -0x8000_0000 <= i < 0x8000_0000)
      && (e.Uint? <==> 0x8000_0000 <= i < 0x1_0000_0000) && (e.Uint64? <==> 0x8000_0000_0000_0000 <= i)
  {
  }

  /** The number a canonical representation stands for. */
  function Numeric(word: nat, flags: NumberFlags): int {
    if flags.int64 then SignedWord(word) else word
  }

  lemma CanonicalNumeric(i: int)
    requires InWord(i)
    ensures Numeric(Canonical(i).word, Canonical(i).flags) == i
  {
  }

  /**
   The events of a value in document order. A value generates the event of its first flag; a parser that reads
   the value back generates the event of the tightest unsigned type, or signed type below zero.
   */
  function Generate(v: Value, reread: bool): seq<Event> {
    match v
    case NullValue => [Null]
    case BoolValue(b) => [Bool(b)]
    case NumberValue(word, flags) => [if reread then RereadEvent(Numeric(word, flags)) else NumberEvent(word, flags)]
    case DoubleValue(literal) => [Double(literal)]
    case StringValue(str) => [String(str)]
    case ArrayValue(elements) => [StartArray] + GenerateElements(elements, 0, reread) + [EndArray(|elements|)]
    case ObjectValue(members) => [StartObject] + GenerateMembers(members, 0, reread) + [EndObject(|members|)]
  }

  function GenerateElements(elements: seq<Value>, i: nat, reread: bool): seq<Event>
    requires i <= |elements|
    decreases elements, |elements| - i
  {
    if i == |elements| then [] else Generate(elements[i], reread) + GenerateElements(elements, i + 1, reread)
  }

  function GenerateMembers(members: seq<Member>, i: nat, reread: bool): seq<Event>
    requires i <= |members|
    decreases members, |members| - i
  {
    if i == |members| then []
    else [Key(members[i].name)] + Generate(members[i].value, reread) + GenerateMembers(members, i + 1, reread)
  }

  function RereadEvent(i: int): Event {
    var e := IntegerEvent(i < 0, if i < 0 then -i else i);
    if e.Some? then e.value else Null
  }

  lemma RereadEventIs(i: int)
    requires InWord(i)
    ensures IsIntegerEvent(RereadEvent(i), i)
  {
  }

  /** The events a value gives to a handler. */
  function Accept(v: Value): seq<Event> {
    Generate(v, false)
  }

  /** A value the library's own operations can make: canonical numbers, and sizes that fit 32 bits. */
  ghost predicate WellFormed(v: Value) {
    match v
    case NumberValue(word, flags) => InWord(Numeric(word, flags)) && v == Canonical(Numeric(word, flags))
    case ArrayValue(elements) =>
      |elements| <= MAX_UINT32 && forall i | 0 <= i < |elements| :: WellFormed(elements[i])
    case ObjectValue(members) =>
      |members| <= MAX_UINT32 && forall i | 0 <= i < |members| :: WellFormed(members[i].value)
    case _ => true
  }

  // ---------------------------------------------------------------- Building

  /** The members on the stack above `base`: each is a name and a value. */
  function PairUp(cells: seq<Value>): Option<seq<Member>>
    decreases |cells|
  {
    if |cells| < 2 then (if cells == [] then Some([]) else None)
    else if !cells[0].StringValue? then None
    else
      match PairUp(cells[2..])
      case None => None
      case Some(rest) => Some([Member(cells[0].str, cells[1])] + rest)
  }

  /** The value of a parser event that is one value; arrays and objects start empty. */
  function LeafValue(e: Event): Option<Value> {
    match e
    case Null => Some(NullValue)
    case Bool(b) => Some(BoolValue(b))
    case Int(i) => if InInt32(i) then Some(OfInt(i)) else None
    case Uint(u) => if u <= MAX_UINT32 then Some(OfUint(u)) else None
    case Int64(i) => if -MAX_INT64 - 1 <= i <= MAX_INT64 then Some(OfInt64(i)) else None
    case Uint64(u) => if u <= MAX_UINT64 then Some(OfUint64(u)) else None
    case Double(literal) => Some(DoubleValue(literal))
    case String(str) => Some(StringValue(str))
    case Key(name) => Some(StringValue(name))
    case StartArray => Some(ArrayValue([]))
    case StartObject => Some(ObjectValue([]))
    case _ => None
  }

  /** The build stack after one more event; none when a container would pop more than the stack holds. */
  function BuildStep(stack: seq<Value>, e: Event): Option<seq<Value>> {
    match e
    case EndArray(n) =>
      if |stack| < n + 1 || !stack[|stack| - n - 1].ArrayValue? then None
      else Some(stack[..|stack| - n - 1] + [ArrayValue(stack[|stack| - n..])])
    case EndObject(n) =>
      if |stack| < 2 * n + 1 || !stack[|stack| - 2 * n - 1].ObjectValue? then None
      else
        (match PairUp(stack[|stack| - 2 * n..])
         case None => None
         case Some(members) => Some(stack[..|stack| - 2 * n - 1] + [ObjectValue(members)]))
    case _ =>
      match LeafValue(e)
      case None => None
      case Some(v) => Some(stack + [v])
  }

  function Build(stack: seq<Value>, events: seq<Event>): Option<seq<Value>>
    decreases |events|
  {
    if events == [] then Some(stack)
    else
      match BuildStep(stack, events[0])
      case None => None
      case Some(next) => Build(next, events[1..])
  }

  /** Building from one history and then another is building from both. */
  lemma {:induction false} BuildConcat(stack: seq<Value>, a: seq<Event>, b: seq<Event>)
    requires Build(stack, a).Some?
    ensures Build(stack, a + b) == Build(Build(stack, a).value, b)
    decreases |a|
  {
    if a == [] {
      assert a + b == b;
    } else {
      assert (a + b)[1..] == a[1..] + b;
      BuildConcat(BuildStep(stack, a[0]).value, a[1..], b);
    }
  }

  // ---------------------------------------------------------------- Building what was generated

  lemma LeafBuilds(e: Event, i: int)
    requires InWord(i) && IsIntegerEvent(e, i)
    ensures LeafValue(e) == Some(Canonical(i))
  {
    ConstructorsAgree(i);
  }

  lemma BuildOne(stack: seq<Value>, e: Event)
    requires BuildStep(stack, e).Some?
    ensures Build(stack, [e]) == BuildStep(stack, e)
  {
    assert [e][1..] == [];
  }

  /** Names and values of members as they lie on the build stack. */
  ghost function Cells(members: seq<Member>): seq<Value> {
    if members == [] then []
    else [StringValue(members[0].name), members[0].value] + Cells(members[1..])
  }

  lemma {:induction false} PairUpCells(members: seq<Member>)
    ensures PairUp(Cells(members)) == Some(members) && |Cells(members)| == 2 * |members|
    decreases |members|
  {
    if members != [] {
      PairUpCells(members[1..]);
      assert Cells(members)[2..] == Cells(members[1..]);
      assert members == [members[0]] + members[1..];
    }
  }

  lemma Opening(a: seq<Value>, x: Value, b: seq<Value>)
    ensures var all := a + [x] + b;
      |all| == |a| + 1 + |b| && all[|a|] == x && all[..|a|] == a && all[|a| + 1..] == b
  {
  }

  lemma CloseArray(stack: seq<Value>, elements: seq<Value>)
    ensures BuildStep(stack + [ArrayValue([])] + elements, EndArray(|elements|)) == Some(stack + [ArrayValue(elements)])
  {
    Opening(stack, ArrayValue([]), elements);
  }

  lemma CloseObject(stack: seq<Value>, members: seq<Member>)
    ensures BuildStep(stack + [ObjectValue([])] + Cells(members), EndObject(|members|))
      == Some(stack + [ObjectValue(members)])
  {
    PairUpCells(members);
    Opening(stack, ObjectValue([]), Cells(members));
  }

  lemma BuildThree(stack: seq<Value>, a: Event, middle: seq<Event>, b: Event, s1: seq<Value>, s2: seq<Value>)
    requires BuildStep(stack, a) == Some(s1) && Build(s1, middle) == Some(s2) && BuildStep(s2, b).Some?
    ensures Build(stack, [a] + middle + [b]) == BuildStep(s2, b)
  {
    BuildOne(stack, a);
    BuildOne(s2, b);
    BuildConcat(stack, [a], middle);
    BuildConcat(stack, [a] + middle, [b]);
  }

  /** The events of a value build exactly that value on top of the stack. */
  lemma {:induction false} BuildValue(stack: seq<Value>, v: Value, reread: bool)
    requires WellFormed(v)
    ensures Build(stack, Generate(v, reread)) == Some(stack + [v])
    decreases v, 1
  {
    match v {
      case ArrayValue(elements) =>
        var s1 := stack + [ArrayValue([])];
        BuildElements(s1, elements, 0, reread);
        assert elements[0..] == elements;
        CloseArray(stack, elements);
        BuildThree(stack, StartArray, GenerateElements(elements, 0, reread), EndArray(|elements|), s1, s1 + elements);
      case ObjectValue(members) =>
        var s1 := stack + [ObjectValue([])];
        BuildMembers(s1, members, 0, reread);
        assert members[0..] == members;
        CloseObject(stack, members);
        BuildThree(stack, StartObject, GenerateMembers(members, 0, reread), EndObject(|members|), s1,
          s1 + Cells(members));
      case _ =>
        BuildLeaf(stack, v, reread);
    }
  }

  lemma BuildLeaf(stack: seq<Value>, v: Value, reread: bool)
    requires WellFormed(v) && !v.ArrayValue? && !v.ObjectValue?
    ensures Build(stack, Generate(v, reread)) == Some(stack + [v])
  {
    var e := Generate(v, reread)[0];
    assert Generate(v, reread) == [e];
    if v.NumberValue? {
      var i := Numeric(v.word, v.flags);
      NumberEventIs(i);
      RereadEventIs(i);
      LeafBuilds(e, i);
    }
    BuildOne(stack, e);
  }

  lemma {:induction false} BuildElements(stack: seq<Value>, elements: seq<Value>, i: nat, reread: bool)
    requires i <= |elements| && forall k | 0 <= k < |elements| :: WellFormed(elements[k])
    ensures Build(stack, GenerateElements(elements, i, reread)) == Some(stack + elements[i..])
    decreases elements, 0, |elements| - i
  {
    if i == |elements| {
      assert stack + elements[i..] == stack;
    } else {
      BuildValue(stack, elements[i], reread);
      BuildElements(stack + [elements[i]], elements, i + 1, reread);
      BuildConcat(stack, Generate(elements[i], reread), GenerateElements(elements, i + 1, reread));
      assert stack + [elements[i]] + elements[i + 1..] == stack + elements[i..];
    }
  }

  lemma {:induction false} BuildMembers(stack: seq<Value>, members: seq<Member>, i: nat, reread: bool)
    requires i <= |members| && forall k | 0 <= k < |members| :: WellFormed(members[k].value)
    ensures Build(stack, GenerateMembers(members, i, reread)) == Some(stack + Cells(members[i..]))
    decreases members, 0, |members| - i
  {
    if i == |members| {
      assert stack + Cells(members[i..]) == stack;
    } else {
      var m := members[i];
      var s1 := stack + [StringValue(m.name)];
      BuildOne(stack, Key(m.name));
      BuildValue(s1, m.value, reread);
      BuildMembers(s1 + [m.value], members, i + 1, reread);
      BuildConcat(stack, [Key(m.name)], Generate(m.value, reread));
      BuildConcat(stack, [Key(m.name)] + Generate(m.value, reread), GenerateMembers(members, i + 1, reread));
      assert members[i..][1..] == members[i + 1..];
      assert s1 + [m.value] + Cells(members[i + 1..]) == stack + Cells(members[i..]);
    }
  }
}
