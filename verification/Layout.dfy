/** The text a value is printed as: one definition for both writers, every format option and both targets. */
module Layout {
  import opened Bytes
  import opened Strings
  import opened Numbers
  import opened Dom

  /** The compact writer, or the pretty one with its indentation and array option. */
  datatype Format =
    | Compact
    | Pretty(indentChar: byte, indentCharCount: nat, singleLineArray: bool)

  datatype Style = Style(format: Format, target: Target)

  /** What the setter of the indentation demands. */
  predicate ValidFormat(f: Format) {
    f.Pretty? ==> IsSpace(f.indentChar)
  }

  function Repeat(c: byte, n: nat): (s: bytes)
    ensures |s| == n
  {
    if n == 0 then [] else [c] + Repeat(c, n - 1)
  }

  /** A line break and the indentation of `depth` open containers. */
  function Newline(f: Format, depth: nat): bytes {
    if f.Compact? then [] else [LINE_FEED] + Repeat(f.indentChar, depth * f.indentCharCount)
  }

  /** The white space before an array element; `later` says that a comma came first. */
  function ElementGap(f: Format, depth: nat, later: bool): bytes {
    if f.Compact? then []
    else if !f.singleLineArray then Newline(f, depth)
    else if later then [SPACE]
    else []
  }

  /** The white space before the closing bracket of a nonempty array that stood at `depth`. */
  function ArrayEndGap(f: Format, depth: nat): bytes
    requires depth > 0
  {
    if f.Compact? || f.singleLineArray then [] else Newline(f, depth - 1)
  }

  function ColonGap(f: Format): bytes {
    if f.Compact? then [] else [SPACE]
  }

  function Separator(later: bool): bytes {
    if later then [COMMA] else []
  }

  /** The value has no double, and its strings can be written to the target. */
  ghost predicate Printable(target: Target, v: Value) {
    match v
    case DoubleValue(_) => false
    case StringValue(str) => Writable(target, str)
    case ArrayValue(elements) => forall i | 0 <= i < |elements| :: Printable(target, elements[i])
    case ObjectValue(members) =>
      forall i | 0 <= i < |members| :: Writable(target, members[i].name) && Printable(target, members[i].value)
    case _ => true
  }

  /** The text of a value inside `depth` open containers. */
  function Print(st: Style, v: Value, depth: nat): bytes
    requires Printable(st.target, v)
    decreases v, 1
  {
    match v
    case NullValue => NULL_WORD
    case BoolValue(b) => if b then TRUE_WORD else FALSE_WORD
    case NumberValue(word, flags) => DecimalInt(Numeric(word, flags))
    case StringValue(str) => Quoted(st.target, str)
    case ArrayValue(elements) => [LEFT_BRACKET] + PrintElements(st, elements, 0, depth + 1)
    case ObjectValue(members) => [LEFT_CURLY] + PrintMembers(st, members, 0, depth + 1)
    case DoubleValue(_) => []
  }

  /** The elements from the `i`-th on, with what separates them from the ones before, and the closing bracket. */
  function PrintElements(st: Style, elements: seq<Value>, i: nat, depth: nat): bytes
    requires i <= |elements| && forall k | 0 <= k < |elements| :: Printable(st.target, elements[k])
    requires depth > 0
    decreases elements, 1, |elements| - i
  {
    if i == |elements| then
      (if i == 0 then [] else ArrayEndGap(st.format, depth)) + [RIGHT_BRACKET]
    else
      PrintElement(st, elements, i, depth) + PrintElements(st, elements, i + 1, depth)
  }

  function PrintElement(st: Style, elements: seq<Value>, i: nat, depth: nat): bytes
    requires i < |elements| && Printable(st.target, elements[i])
    decreases elements, 0
  {
    Separator(i > 0) + ElementGap(st.format, depth, i > 0) + Print(st, elements[i], depth)
  }

  /** The members from the `i`-th on, with what separates them from the ones before, and the closing bracket. */
  function PrintMembers(st: Style, members: seq<Member>, i: nat, depth: nat): bytes
    requires i <= |members| && forall k | 0 <= k < |members| ::
      Writable(st.target, members[k].name) && Printable(st.target, members[k].value)
    requires depth > 0
    decreases members, 1, |members| - i
  {
    if i == |members| then
      (if i == 0 then [] else Newline(st.format, depth - 1)) + [RIGHT_CURLY]
    else
      PrintMember(st, members, i, depth) + PrintMembers(st, members, i + 1, depth)
  }

  function PrintMember(st: Style, members: seq<Member>, i: nat, depth: nat): bytes
    requires i < |members| && Writable(st.target, members[i].name) && Printable(st.target, members[i].value)
    decreases members, 0
  {
    Separator(i > 0) + Newline(st.format, depth) + Quoted(st.target, members[i].name) + [COLON]
    + ColonGap(st.format) + Print(st, members[i].value, depth)
  }
}
