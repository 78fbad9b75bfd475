/**
 The grammar of JSON texts, after sections 2 to 7 of RFC 8259, spelled out in bytes and without regard to how a
 parser goes about it, with the library's extensions: comments and trailing commas, which flags allow, a text that
 ends at its first NUL, and raw bytes and lone second halves of surrogate pairs in strings. A tree says at which
 positions the parts of a text stand.
 */
module Grammar {
  import opened Bytes
  import opened Sax
  import opened Numbers
  import opened Utf8

  // ---------------------------------------------------------------- White space and comments

  /** Section 2: the four characters of insignificant white space. */
  predicate IsBlank(c: byte) {
    c == 0x20 || c == 0x09 || c == 0x0A || c == 0x0D
  }

  /** Between a slash with a star and the first star with a slash after it. */
  ghost predicate BlockComment(t: bytes, p: nat, r: nat)
    requires p + 4 <= r <= |t|
  {
    && t[p] == 0x2F && t[p + 1] == 0x2A && t[r - 2] == 0x2A && t[r - 1] == 0x2F
    && forall i | p + 2 <= i < r - 2 :: t[i] != 0 && !(t[i] == 0x2A && t[i + 1] == 0x2F)
  }

  /** From `//` to the end of the line or of the text. */
  ghost predicate LineComment(t: bytes, p: nat, r: nat)
    requires p + 2 <= r <= |t|
  {
    && t[p] == 0x2F && t[p + 1] == 0x2F
    && (|| (p + 2 < r && t[r - 1] == 0x0A && forall i | p + 2 <= i < r - 1 :: t[i] != 0 && t[i] != 0x0A)
        || (Peek(t, r) == 0 && forall i | p + 2 <= i < r :: t[i] != 0 && t[i] != 0x0A))
  }

  ghost predicate Comment(t: bytes, p: nat, r: nat)
    requires p < r <= |t|
  {
    (p + 4 <= r && BlockComment(t, p, r)) || (p + 2 <= r && LineComment(t, p, r))
  }

  /** White space, and comments when they are allowed, from `p` to `q`. */
  ghost predicate GapAt(cfg: Config, t: bytes, p: nat, q: nat)
    requires p <= q <= |t|
    decreases q - p, 1
  {
    p == q || GapBegins(cfg, t, p, q)
  }

  /** A gap that begins with a blank or a comment. */
  ghost predicate GapBegins(cfg: Config, t: bytes, p: nat, q: nat)
    requires p < q <= |t|
    decreases q - p, 0
  {
    || (IsBlank(t[p]) && GapAt(cfg, t, p + 1, q))
    || (cfg.comments && exists r | p < r <= q :: Comment(t, p, r) && GapAt(cfg, t, r, q))
  }

  // ---------------------------------------------------------------- Strings

  /** A hexadecimal digit, in either case, and its value. */
  predicate Spells(c: byte, d: nat) {
    if d < 10 then c == 0x30 + d else d < 16 && (c == 0x61 + (d - 10) || c == 0x41 + (d - 10))
  }

  /** `0123456789abcdef` and `0123456789ABCDEF` */
  const LOWER: bytes := [0x30, 0x31, 0x32, 0x33, 0x34, 0x35, 0x36, 0x37, 0x38, 0x39, 0x61, 0x62, 0x63, 0x64, 0x65, 0x66]
  const UPPER: bytes := [0x30, 0x31, 0x32, 0x33, 0x34, 0x35, 0x36, 0x37, 0x38, 0x39, 0x41, 0x42, 0x43, 0x44, 0x45, 0x46]

  /** The digits written out. */
  lemma SpelledOut(c: byte, d: nat)
    ensures Spells(c, d) <==> d < 16 && (c == LOWER[d] || c == UPPER[d])
  {
  }

  /** The values of four hexadecimal digits and the number they spell. */
  datatype Hex = Hex(w: nat, x: nat, y: nat, z: nat, number: nat)

  /** Four digits at `p`, each in lower or upper case. */
  ghost predicate HexAt(t: bytes, p: nat, h: Hex) {
    && p + 4 <= |t|
    && Spells(t[p], h.w) && Spells(t[p + 1], h.x) && Spells(t[p + 2], h.y) && Spells(t[p + 3], h.z)
    && h.number == h.w * 4096 + h.x * 256 + h.y * 16 + h.z
  }

  /** `\uXXXX` at `p`. */
  ghost predicate UnicodeAt(t: bytes, p: nat, h: Hex) {
    p + 6 <= |t| && t[p] == 0x5C && t[p + 1] == 0x75 && HexAt(t, p + 2, h)
  }

  /** Section 7: the letters of the short escapes and what they stand for. */
  const SHORT: seq<(byte, byte)> := [
    (0x22, 0x22), (0x5C, 0x5C), (0x2F, 0x2F), (0x62, 0x08), (0x66, 0x0C), (0x6E, 0x0A), (0x72, 0x0D), (0x74, 0x09)]

  /** A part of a string: a byte for itself, a short escape, one `\uXXXX`, or two for a surrogate pair. */
  datatype Char =
    | Raw(c: byte)
    | Short(letter: byte, stands: byte)
    | Unit(u: Hex)
    | Pair(high: Hex, low: Hex)

  ghost function Width(c: Char): (n: nat)
    ensures n > 0
  {
    match c
    case Raw(_) => 1
    case Short(_, _) => 2
    case Unit(_) => 6
    case Pair(_, _) => 12
  }

  /** The bytes a part of a string stands for. */
  ghost function CharBytes(c: Char): bytes {
    match c
    case Raw(c) => [c]
    case Short(_, stands) => [stands]
    case Unit(u) => CodePoint(u.number)
    case Pair(high, low) => CodePoint(0x10000 + (high.number - 0xD800) * 0x400 + (low.number - 0xDC00))
  }

  ghost function CodePoint(cp: int): bytes {
    if 0 <= cp <= 0x10FFFF then Encode(cp) else []
  }

  ghost function Length(chars: seq<Char>): (n: nat) {
    if chars == [] then 0 else Width(chars[0]) + Length(chars[1..])
  }

  ghost predicate CharAt(t: bytes, p: nat, c: Char) {
    p + Width(c) <= |t| &&
    match c
    case Raw(c) => t[p] == c && c >= 0x20 && c != 0x22 && c != 0x5C
    case Short(letter, stands) => t[p] == 0x5C && t[p + 1] == letter && (letter, stands) in SHORT
    case Unit(u) => UnicodeAt(t, p, u) && !(0xD800 <= u.number <= 0xDBFF)
    case Pair(high, low) =>
      && UnicodeAt(t, p, high) && 0xD800 <= high.number <= 0xDBFF
      && UnicodeAt(t, p + 6, low) && 0xDC00 <= low.number <= 0xDFFF
  }

  ghost predicate CharsAt(t: bytes, p: nat, chars: seq<Char>)
    decreases |chars|, 1
  {
    chars == [] || CharsBegin(t, p, chars)
  }

  ghost predicate CharsBegin(t: bytes, p: nat, chars: seq<Char>)
    requires chars != []
    decreases |chars|, 0
  {
    CharAt(t, p, chars[0]) && CharsAt(t, p + Width(chars[0]), chars[1..])
  }

  /** A string with its quotation marks. */
  ghost predicate StringAt(t: bytes, p: nat, chars: seq<Char>) {
    && p + Length(chars) + 2 <= |t| && t[p] == 0x22 && t[p + Length(chars) + 1] == 0x22
    && CharsAt(t, p + 1, chars)
  }

  /** The bytes a string stands for. */
  ghost function Denoted(chars: seq<Char>): bytes {
    if chars == [] then [] else CharBytes(chars[0]) + Denoted(chars[1..])
  }

  // ---------------------------------------------------------------- Numbers

  ghost predicate DigitsAt(t: bytes, p: nat, q: nat) {
    p < q <= |t| && (forall i | p <= i < q :: 0x30 <= t[i] <= 0x39) && !(0x30 <= Peek(t, q) <= 0x39)
  }

  /** Section 6: the longest number at `p`, by the ends of its parts. */
  ghost predicate NumberAt(t: bytes, p: nat, l: Literal) {
    && (l.minus <==> Peek(t, p) == 0x2D) && l.intStart == (if l.minus then p + 1 else p)
    && (if Peek(t, l.intStart) == 0x30 then l.intEnd == l.intStart + 1 else DigitsAt(t, l.intStart, l.intEnd))
    && (if Peek(t, l.intEnd) == 0x2E then DigitsAt(t, l.intEnd + 1, l.fracEnd) else l.fracEnd == l.intEnd)
    && if Peek(t, l.fracEnd) == 0x65 || Peek(t, l.fracEnd) == 0x45 then
         var sign := Peek(t, l.fracEnd + 1);
         && l.exponentStart == (if sign == 0x2B || sign == 0x2D then l.fracEnd + 2 else l.fracEnd + 1)
         && (l.exponentMinus <==> sign == 0x2D)
         && DigitsAt(t, l.exponentStart, l.end)
       else l.exponentStart == l.end == l.fracEnd && !l.exponentMinus
  }

  /** The number that the digits from `p` to `q` spell in base ten. */
  ghost function BaseTen(t: bytes, p: nat, q: nat): nat
    requires p <= q <= |t| && forall i | p <= i < q :: IsDigit(t[i])
    decreases q
  {
    if p == q then 0
    else
      assert IsDigit(t[q - 1]);
      BaseTen(t, p, q - 1) * 10 + (t[q - 1] as int - 0x30)
  }

  /** A whole number is delivered by the first type that holds it, any other as a double. */
  ghost function NumberEvent(t: bytes, p: nat, l: Literal): Event
    requires p <= |t| && ValidLiteral(t, l) && p <= l.end
  {
    var v := BaseTen(t, l.intStart, l.intEnd);
    var negated: int := 0 - v as int;
    if l.end != l.intEnd then Double(t[p..l.end])
    else if l.minus then
      if v <= 0x8000_0000 then Int(negated)
      else if v <= 0x8000_0000_0000_0000 then Int64(negated)
      else Double(t[p..l.end])
    else
      if v <= 0xFFFF_FFFF then Uint(v)
      else if v <= 0xFFFF_FFFF_FFFF_FFFF then Uint64(v)
      else Double(t[p..l.end])
  }

  /** How many zeros stand at `a`, before `b`. */
  ghost function Zeros(t: bytes, a: nat, b: nat): (n: nat)
    requires a <= b <= |t|
    ensures a + n <= b
    decreases b - a
  {
    if a == b || t[a] != 0x30 then 0 else 1 + Zeros(t, a + 1, b)
  }

  /**
   How many fraction digits count: as many as make 18 digits with those of the integer part, or 17 after the zeros
   when the integer part is zero.
   */
  ghost function Counting(t: bytes, l: Literal): nat
    requires ValidLiteral(t, l)
  {
    if l.fracEnd == l.intEnd then 0
    else
      var fraction := l.fracEnd - l.intEnd - 1;
      var zeros: int := Zeros(t, l.intEnd + 1, l.fracEnd);
      var room := if t[l.intStart] == 0x30 then zeros + 17 else 18 - (l.intEnd - l.intStart);
      if fraction <= room then fraction else if room < 0 then 0 else room
  }

  /** A number that is too big for a double is refused, unread when its exponent is above 308 and what counts. */
  ghost predicate TooBig(cfg: Config, t: bytes, p: nat, l: Literal)
    requires p <= |t| && ValidLiteral(t, l) && p <= l.end
  {
    && NumberEvent(t, p, l).Double?
    && ((!l.exponentMinus && BaseTen(t, l.exponentStart, l.end) > 308 + Counting(t, l)) || cfg.overflows(t[p..l.end]))
  }

  // ---------------------------------------------------------------- Values

  /**
   The tree of a value. An item ends where the comma or bracket after it stands, and a member has a place for its
   colon as well; a number comes with its event.
   */
  datatype Tree =
    | NullTree(at: nat)
    | TrueTree(at: nat)
    | FalseTree(at: nat)
    | NumberTree(at: nat, literal: Literal, event: Event)
    | StringTree(at: nat, chars: seq<Char>)
    | ArrayTree(at: nat, items: seq<Item>, to: nat)
    | ObjectTree(at: nat, entries: seq<Entry>, to: nat)

  datatype Item = Item(value: Tree, end: nat)

  datatype Entry = Entry(name: nat, chars: seq<Char>, colon: nat, value: Tree, end: nat)

  ghost function To(tree: Tree): nat {
    match tree
    case NullTree(at) => at + 4
    case TrueTree(at) => at + 4
    case FalseTree(at) => at + 5
    case NumberTree(_, literal, _) => literal.end
    case StringTree(at, chars) => at + Length(chars) + 2
    case ArrayTree(_, _, to) => to
    case ObjectTree(_, _, to) => to
  }

  ghost predicate IsWord(t: bytes, p: nat, word: bytes) {
    p + |word| <= |t| && t[p..p + |word|] == word
  }

  ghost predicate IsNumber(cfg: Config, t: bytes, p: nat, l: Literal, event: Event) {
    p < |t| && NumberAt(t, p, l) && ValidLiteral(t, l) && !TooBig(cfg, t, p, l) && event == NumberEvent(t, p, l)
  }

  /** Sections 3 to 7: the text of the tree stands where the tree says. */
  ghost predicate TreeAt(cfg: Config, t: bytes, tree: Tree)
    decreases tree, 1
  {
    match tree
    case NullTree(p) => IsWord(t, p, [0x6E, 0x75, 0x6C, 0x6C])
    case TrueTree(p) => IsWord(t, p, [0x74, 0x72, 0x75, 0x65])
    case FalseTree(p) => IsWord(t, p, [0x66, 0x61, 0x6C, 0x73, 0x65])
    case NumberTree(p, l, event) => IsNumber(cfg, t, p, l, event)
    case StringTree(p, chars) => StringAt(t, p, chars)
    case ArrayTree(p, items, to) => ArrayAt(cfg, t, p, items, to)
    case ObjectTree(p, entries, to) => ObjectAt(cfg, t, p, entries, to)
  }

  ghost predicate ArrayAt(cfg: Config, t: bytes, p: nat, items: seq<Item>, to: nat)
    decreases items, 2
  {
    p + 2 <= to <= |t| && t[p] == 0x5B && t[to - 1] == 0x5D && ItemsAt(cfg, t, p + 1, items, to - 1, false)
  }

  ghost predicate ObjectAt(cfg: Config, t: bytes, p: nat, entries: seq<Entry>, to: nat)
    decreases entries, 2
  {
    p + 2 <= to <= |t| && t[p] == 0x7B && t[to - 1] == 0x7D && EntriesAt(cfg, t, p + 1, entries, to - 1, false)
  }

  /** Items with their commas from `p` to the closing bracket at `q`; `comma` says that a comma stands before `p`. */
  ghost predicate ItemsAt(cfg: Config, t: bytes, p: nat, items: seq<Item>, q: nat, comma: bool)
    requires p <= q < |t|
    decreases items, 1
  {
    if items == [] then (comma ==> cfg.trailingCommas) && GapAt(cfg, t, p, q)
    else ItemAt(cfg, t, p, items[0]) && items[0].end <= q && ItemsGoOn(cfg, t, items, q)
  }

  /** After the first item the closing bracket stands, or a comma and the other items. */
  ghost predicate ItemsGoOn(cfg: Config, t: bytes, items: seq<Item>, q: nat)
    requires items != [] && items[0].end <= q < |t|
    decreases items, 0
  {
    var end := items[0].end;
    if end == q then |items| == 1 else t[end] == 0x2C && ItemsAt(cfg, t, end + 1, items[1..], q, true)
  }

  /** A value with the gaps around it, from `p` to its end. */
  ghost predicate ItemAt(cfg: Config, t: bytes, p: nat, item: Item)
    decreases item, 0
  {
    var v := item.value;
    && p <= v.at <= To(v) <= item.end <= |t|
    && GapAt(cfg, t, p, v.at) && TreeAt(cfg, t, v) && GapAt(cfg, t, To(v), item.end)
  }

  ghost predicate EntriesAt(cfg: Config, t: bytes, p: nat, entries: seq<Entry>, q: nat, comma: bool)
    requires p <= q < |t|
    decreases entries, 1
  {
    if entries == [] then (comma ==> cfg.trailingCommas) && GapAt(cfg, t, p, q)
    else EntryAt(cfg, t, p, entries[0]) && entries[0].end <= q && EntriesGoOn(cfg, t, entries, q)
  }

  ghost predicate EntriesGoOn(cfg: Config, t: bytes, entries: seq<Entry>, q: nat)
    requires entries != [] && entries[0].end <= q < |t|
    decreases entries, 0
  {
    var end := entries[0].end;
    if end == q then |entries| == 1 else t[end] == 0x2C && EntriesAt(cfg, t, end + 1, entries[1..], q, true)
  }

  /** A member with the gaps around it, from `p` to its end. */
  ghost predicate EntryAt(cfg: Config, t: bytes, p: nat, e: Entry)
    decreases e, 1
  {
    && p <= e.name <= |t| && GapAt(cfg, t, p, e.name) && NameAt(cfg, t, e)
    && e.value.at <= To(e.value) <= e.end <= |t| && GapAt(cfg, t, To(e.value), e.end)
  }

  /** A name, a colon and a value, with the gaps between them. */
  ghost predicate NameAt(cfg: Config, t: bytes, e: Entry)
    decreases e, 0
  {
    && e.name + Length(e.chars) + 2 <= e.colon < e.value.at <= |t| && StringAt(t, e.name, e.chars)
    && GapAt(cfg, t, e.name + Length(e.chars) + 2, e.colon) && t[e.colon] == 0x3A
    && GapAt(cfg, t, e.colon + 1, e.value.at) && TreeAt(cfg, t, e.value)
  }

  // ---------------------------------------------------------------- Events

  /** What a handler is told of a tree; counts are 32-bit. */
  ghost function Events(tree: Tree): seq<Event>
    decreases tree, 1
  {
    match tree
    case NullTree(_) => [Null]
    case TrueTree(_) => [Bool(true)]
    case FalseTree(_) => [Bool(false)]
    case NumberTree(_, _, event) => [event]
    case StringTree(_, chars) => [String(Denoted(chars))]
    case ArrayTree(_, items, _) => [StartArray] + ItemsEvents(items) + [EndArray(|items| % 0x1_0000_0000)]
    case ObjectTree(_, entries, _) => [StartObject] + EntriesEvents(entries) + [EndObject(|entries| % 0x1_0000_0000)]
  }

  ghost function ItemsEvents(items: seq<Item>): seq<Event>
    decreases items, 0
  {
    if items == [] then []
    else
      var item := items[0];
      assert item.value < item;
      Events(item.value) + ItemsEvents(items[1..])
  }

  ghost function EntriesEvents(entries: seq<Entry>): seq<Event>
    decreases entries, 0
  {
    if entries == [] then []
    else
      var e := entries[0];
      EntryEvents(e) + EntriesEvents(entries[1..])
  }

  ghost function EntryEvents(e: Entry): seq<Event>
    decreases e, 0
  {
    assert e.value < e;
    [Key(Denoted(e.chars))] + Events(e.value)
  }

  /** The handler accepts one event after the other. */
  ghost predicate Accepts(cfg: Config, log: seq<Event>, events: seq<Event>) {
    forall k | 0 < k <= |events| :: cfg.accepts(log + events[..k])
  }

  /**
   A text that stops at `pos`: a value between gaps up to the end of the text or its first NUL, or, when the parser
   stops with the value, just the value after a gap.
   */
  ghost predicate TextAt(cfg: Config, t: bytes, tree: Tree, pos: nat) {
    && tree.at <= To(tree) <= pos <= |t| && GapAt(cfg, t, 0, tree.at) && TreeAt(cfg, t, tree)
    && if cfg.stopWhenDone then pos == To(tree) else GapAt(cfg, t, To(tree), pos) && Peek(t, pos) == 0
  }
}
