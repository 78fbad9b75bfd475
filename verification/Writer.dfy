/** The writer and the pretty writer: handlers that print events as they arrive. */
module Writer {
  import opened Bytes
  import opened Sax
  import opened Strings
  import opened Numbers
  import opened Layout
  import Utf8

  /** One open container and how many names and values were written in it. */
  datatype Level = Level(inArray: bool, valueCount: nat)

  datatype State = State(out: bytes, levels: seq<Level>, hasRoot: bool)

  /** The order of events the writer's assertions demand before a value; `isString` also stands for a name. */
  predicate AllowsValue(levels: seq<Level>, hasRoot: bool, isString: bool) {
    if levels == [] then !hasRoot
    else
      var top := levels[|levels| - 1];
      top.inArray || top.valueCount % 2 == 1 || isString
  }

  predicate AllowsEnd(levels: seq<Level>, inArray: bool) {
    levels != [] &&
    var top := levels[|levels| - 1];
    top.inArray == inArray && (inArray || top.valueCount % 2 == 0)
  }

  /** What is written before a value or name. */
  function Lead(f: Format, levels: seq<Level>): bytes {
    if levels == [] then []
    else
      var top, depth := levels[|levels| - 1], |levels|;
      if top.inArray then Separator(top.valueCount > 0) + ElementGap(f, depth, top.valueCount > 0)
      else if top.valueCount % 2 == 1 then [COLON] + ColonGap(f)
      else Separator(top.valueCount > 0) + Newline(f, depth)
  }

  /** The levels with one more value counted in the innermost. */
  function Counted(levels: seq<Level>): seq<Level> {
    if levels == [] then []
    else
      var top := levels[|levels| - 1];
      levels[..|levels| - 1] + [top.(valueCount := top.valueCount + 1)]
  }

  /** The text that closes a container opened as `top` at `depth`. */
  function Closing(f: Format, top: Level, depth: nat): bytes
    requires depth > 0
  {
    if top.inArray then (if top.valueCount == 0 then [] else ArrayEndGap(f, depth)) + [RIGHT_BRACKET]
    else (if top.valueCount == 0 then [] else Newline(f, depth - 1)) + [RIGHT_CURLY]
  }

  /** The integer an event carries, in the range of its type. */
  function EventInt(e: Event): Option<int> {
    match e
    case Int(i) => if InInt32(i) then Some(i) else None
    case Uint(u) => if u <= MAX_UINT32 then Some(u) else None
    case Int64(i) => if -MAX_INT64 - 1 <= i <= MAX_INT64 then Some(i) else None
    case Uint64(u) => if u <= MAX_UINT64 then Some(u) else None
    case _ => None
  }

  /** The text of a value that is not a container, when it can be written. */
  function LeafText(target: Target, e: Event): Option<bytes> {
    match e
    case Null => Some(NULL_WORD)
    case Bool(b) => Some(if b then TRUE_WORD else FALSE_WORD)
    case String(s) => if Writable(target, s) then Some(Quoted(target, s)) else None
    case Key(s) => if Writable(target, s) then Some(Quoted(target, s)) else None
    case _ =>
      match EventInt(e)
      case Some(i) => Some(DecimalInt(i))
      case None => None
  }

  predicate IsString(e: Event) {
    e.String? || e.Key?
  }

  /** The state after an event; none when the event breaks the order or cannot be written. */
  function Write(st: Style, w: State, e: Event): Option<State> {
    if e.EndArray? || e.EndObject? then
      if AllowsEnd(w.levels, e.EndArray?) then
        var n := |w.levels|;
        Some(State(w.out + Closing(st.format, w.levels[n - 1], n), w.levels[..n - 1], w.hasRoot))
      else None
    else if !AllowsValue(w.levels, w.hasRoot, IsString(e)) then None
    else if e.StartArray? then
      Some(State(w.out + Lead(st.format, w.levels) + [LEFT_BRACKET], Counted(w.levels) + [Level(true, 0)], true))
    else if e.StartObject? then
      Some(State(w.out + Lead(st.format, w.levels) + [LEFT_CURLY], Counted(w.levels) + [Level(false, 0)], true))
    else
      match LeafText(st.target, e)
      case Some(text) => Some(State(w.out + Lead(st.format, w.levels) + text, Counted(w.levels), true))
      case None => None
  }

  /** The state after a history. */
  function WriteAll(st: Style, w: State, events: seq<Event>): Option<State>
    decreases |events|
  {
    if events == [] then Some(w)
    else
      match WriteAll(st, w, events[..|events| - 1])
      case Some(before) => Write(st, before, events[|events| - 1])
      case None => None
  }

  predicate IsComplete(w: State) {
    w.hasRoot && w.levels == []
  }

  /** The body of a string literal up to the first character that cannot be decoded. */
  function EscapeWhilePossible(target: Target, s: bytes, i: nat): bytes
    requires i <= |s|
    decreases |s| - i
  {
    if i == |s| || UnitLength(target, s, i) == 0 then []
    else UnitText(target, s, i) + EscapeWhilePossible(target, s, i + UnitLength(target, s, i))
  }

  lemma {:induction false} EscapeWhole(target: Target, s: bytes, i: nat)
    requires i <= |s| && Writable(target, s, i)
    ensures EscapeWhilePossible(target, s, i) == Escape(target, s, i)
    decreases |s| - i
  {
    if i < |s| {
      EscapeStep(target, s, i);
      EscapeWhole(target, s, i + UnitLength(target, s, i));
    }
  }

  lemma {:induction false} RepeatAppend(c: byte, n: nat)
    ensures Repeat(c, n) + [c] == Repeat(c, n + 1)
  {
    if n > 0 {
      RepeatAppend(c, n - 1);
    }
  }

  lemma TextConcat(a: bytes, b: bytes, c: bytes)
    ensures a + b + c == a + (b + c)
  {
  }

  lemma LiteralConcat(a: bytes, b: bytes, c: bytes, d: bytes)
    ensures a + b + c + d == a + (b + c + d)
  {
  }

  lemma GapConcat(a: bytes, b: bytes, c: bytes, d: bytes)
    ensures a + b + c + d == a + (b + (c + d))
    ensures a + c + d == a + (c + d)
    ensures b == [] ==> a + c + d == a + (b + (c + d))
  {
    TextConcat(a + b, c, d);
    TextConcat(a, b, c + d);
  }

  /**
   Both writers: they differ in what they write before values and before closing brackets, which the format
   decides. A text that is not complete holds the open levels' text so far.
   */
  class Writer {
    const style: Style
    var out: bytes
    var levels: seq<Level>
    var hasRoot: bool

    function Now(): State
      reads this
    {
      State(out, levels, hasRoot)
    }

    /** A container can only be open below a root. */
    predicate Valid()
      reads this
    {
      levels != [] ==> hasRoot
    }

    constructor (style: Style)
      requires ValidFormat(style.format)
      ensures Valid() && Now() == State([], [], false) && this.style == style
    {
      this.style := style;
      out, levels, hasRoot := [], [], false;
    }

    /** Makes the writer ready for another text. */
    method Reset()
      modifies this
      ensures Valid() && Now() == State([], [], false)
    {
      out, levels, hasRoot := [], [], false;
    }

    method Put(c: byte)
      modifies this`out
      ensures out == old(out) + [c]
    {
      out := out + [c];
    }

    method PutAll(s: bytes)
      modifies this`out
      ensures out == old(out) + s
    {
      out := out + s;
    }

    method PutN(c: byte, n: nat)
      modifies this`out
      ensures out == old(out) + Repeat(c, n)
    {
      for k := 0 to n
        invariant out == old(out) + Repeat(c, k)
      {
        Put(c);
        RepeatAppend(c, k);
      }
    }

    method WriteIndent()
      requires style.format.Pretty?
      modifies this`out
      ensures out == old(out) + Repeat(style.format.indentChar, |levels| * style.format.indentCharCount)
    {
      PutN(style.format.indentChar, |levels| * style.format.indentCharCount);
    }

    method PutNewline()
      requires style.format.Pretty?
      modifies this`out
      ensures out == old(out) + Newline(style.format, |levels|)
    {
      Put(LINE_FEED);
      WriteIndent();
    }

    /** Writes the separator and gap before a value and counts the value. */
    method Prefix(isString: bool)
      requires Valid() && AllowsValue(levels, hasRoot, isString)
      modifies this
      ensures Now() == State(old(out) + Lead(style.format, old(levels)), Counted(old(levels)), true)
    {
      if |levels| != 0 {
        var top := levels[|levels| - 1];
        if style.format.Pretty? {
          PrettyGap(top);
        } else if top.valueCount > 0 {
          if top.inArray {
            Put(COMMA);
          } else {
            Put(if top.valueCount % 2 == 0 then COMMA else COLON);
          }
        }
        levels := levels[..|levels| - 1] + [top.(valueCount := top.valueCount + 1)];
      } else {
        hasRoot := true;
      }
    }

    /** The part of the pretty writer's prefix that writes. */
    method PrettyGap(top: Level)
      requires style.format.Pretty? && levels != [] && top == levels[|levels| - 1]
      modifies this`out
      ensures out == old(out) + Lead(style.format, levels)
    {
      if top.inArray {
        PrettyElementGap(top);
      } else {
        PrettyMemberGap(top);
      }
    }

    method PrettyElementGap(top: Level)
      requires style.format.Pretty?
      modifies this`out
      ensures out
        == old(out) + (Separator(top.valueCount > 0) + ElementGap(style.format, |levels|, top.valueCount > 0))
    {
      if top.valueCount > 0 {
        Put(COMMA);
        if style.format.singleLineArray {
          Put(SPACE);
        }
      }
      if !style.format.singleLineArray {
        Put(LINE_FEED);
        WriteIndent();
      }
      GapConcat(old(out), Separator(top.valueCount > 0), [LINE_FEED],
        Repeat(style.format.indentChar, |levels| * style.format.indentCharCount));
    }

    method PrettyMemberGap(top: Level)
      requires style.format.Pretty?
      modifies this`out
      ensures top.valueCount % 2 == 1 ==> out == old(out) + ([COLON] + ColonGap(style.format))
      ensures top.valueCount % 2 == 0 ==>
        out == old(out) + (Separator(top.valueCount > 0) + Newline(style.format, |levels|))
    {
      if top.valueCount > 0 {
        if top.valueCount % 2 == 0 {
          Put(COMMA);
          Put(LINE_FEED);
        } else {
          Put(COLON);
          Put(SPACE);
        }
      } else {
        Put(LINE_FEED);
      }
      if top.valueCount % 2 == 0 {
        WriteIndent();
      }
      GapConcat(old(out), Separator(top.valueCount > 0), [LINE_FEED],
        Repeat(style.format.indentChar, |levels| * style.format.indentCharCount));
    }

    /** Puts out one `\uXXXX` escape. */
    method PutUnicodeEscape(u: nat)
      requires u <= 0xFFFF
      modifies this`out
      ensures out == old(out) + UnicodeEscape(u)
    {
      Put(BACKSLASH);
      Put(LETTER_U);
      Put(HexDigit(u / 0x1000 % 0x10));
      Put(HexDigit(u / 0x100 % 0x10));
      Put(HexDigit(u / 0x10 % 0x10));
      Put(HexDigit(u % 0x10));
    }

    method PutCodePoint(codepoint: nat)
      requires Utf8.IsScalar(codepoint)
      modifies this`out
      ensures out == old(out) + EscapeCodePoint(codepoint)
    {
      if codepoint <= 0xD7FF || (0xE000 <= codepoint <= 0xFFFF) {
        PutUnicodeEscape(codepoint);
      } else {
        var s := codepoint - 0x10000;
        PutUnicodeEscape(s / 0x400 + 0xD800);
        PutUnicodeEscape(s % 0x400 + 0xDC00);
      }
    }

    method PutByte(c: byte)
      modifies this`out
      ensures out == old(out) + EscapeByte(c)
    {
      var escape := EscapeLetter(c);
      if escape != 0 {
        Put(BACKSLASH);
        Put(escape);
        if escape == LETTER_U {
          Put(ZERO);
          Put(ZERO);
          Put(HexDigit(c / 0x10));
          Put(HexDigit(c % 0x10));
        }
      } else {
        Put(c);
      }
    }

    /** One turn of the loop over a string: the character at `i`, as it is or escaped. */
    method PutUnit(s: bytes, i: nat) returns (ok: bool, next: nat)
      requires i < |s|
      modifies this`out
      ensures ok <==> UnitLength(style.target, s, i) != 0
      ensures ok ==> next == i + UnitLength(style.target, s, i) && out == old(out) + UnitText(style.target, s, i)
      ensures !ok ==> out == old(out)
    {
      var c := s[i];
      if style.target.AsciiTarget? && c >= 0x80 {
        var codepoint;
        ok, codepoint, next := Utf8.Decode(s, i);
        if ok {
          PutCodePoint(codepoint);
        }
      } else {
        PutByte(c);
        ok, next := true, i + 1;
      }
    }

    /** The same turn, told by what is left to write. */
    method PutNext(s: bytes, i: nat) returns (ok: bool, next: nat)
      requires i < |s|
      modifies this`out
      ensures ok ==> i < next <= |s| && (Writable(style.target, s, i) <==> Writable(style.target, s, next))
      ensures !ok ==> next <= |s| && !Writable(style.target, s, i)
      ensures ok ==>
        out + EscapeWhilePossible(style.target, s, next) == old(out) + EscapeWhilePossible(style.target, s, i)
      ensures !ok ==> out == old(out) + EscapeWhilePossible(style.target, s, i)
    {
      ok, next := PutUnit(s, i);
      if ok {
        TextConcat(old(out), UnitText(style.target, s, i), EscapeWhilePossible(style.target, s, next));
      } else {
        next := i;
      }
    }

    /** Writes a string literal; it stops inside the literal at a character that cannot be decoded. */
    method WriteString(s: bytes) returns (ok: bool)
      modifies this`out
      ensures ok <==> Writable(style.target, s)
      ensures ok ==> out == old(out) + Quoted(style.target, s)
      ensures !ok ==> out == old(out) + [QUOTE] + EscapeWhilePossible(style.target, s, 0)
    {
      Put(QUOTE);
      ghost var whole := out + EscapeWhilePossible(style.target, s, 0);
      var i := 0;
      while i < |s|
        invariant i <= |s|
        invariant Writable(style.target, s) <==> Writable(style.target, s, i)
        invariant out + EscapeWhilePossible(style.target, s, i) == whole
      {
        var done, next := PutNext(s, i);
        if !done {
          return false;
        }
        i := next;
      }
      assert out + [] == out;
      EscapeWhole(style.target, s, 0);
      LiteralConcat(old(out), [QUOTE], Escape(style.target, s), [QUOTE]);
      Put(QUOTE);
      return true;
    }

    /** Writes the text of a value that is no string or container. */
    method WriteLeaf(ghost e: Event, text: bytes) returns (ok: bool)
      requires Valid() && AllowsValue(levels, hasRoot, false)
      requires !IsString(e) && LeafText(style.target, e) == Some(text)
      modifies this
      ensures ok && Valid() && Write(style, old(Now()), e) == Some(Now())
    {
      Prefix(false);
      PutAll(text);
      return true;
    }

    method Null() returns (ok: bool)
      requires Valid() && AllowsValue(levels, hasRoot, false)
      modifies this
      ensures ok && Valid() && Write(style, old(Now()), Event.Null) == Some(Now())
    {
      ok := WriteLeaf(Event.Null, NULL_WORD);
    }

    method Bool(b: bool) returns (ok: bool)
      requires Valid() && AllowsValue(levels, hasRoot, false)
      modifies this
      ensures ok && Valid() && Write(style, old(Now()), Event.Bool(b)) == Some(Now())
    {
      ok := WriteLeaf(Event.Bool(b), if b then TRUE_WORD else FALSE_WORD);
    }

    method Int(i: int) returns (ok: bool)
      requires Valid() && AllowsValue(levels, hasRoot, false) && InInt32(i)
      modifies this
      ensures ok && Valid() && Write(style, old(Now()), Event.Int(i)) == Some(Now())
    {
      ok := WriteLeaf(Event.Int(i), DecimalInt(i));
    }

    method Uint(u: nat) returns (ok: bool)
      requires Valid() && AllowsValue(levels, hasRoot, false) && u <= MAX_UINT32
      modifies this
      ensures ok && Valid() && Write(style, old(Now()), Event.Uint(u)) == Some(Now())
    {
      ok := WriteLeaf(Event.Uint(u), DecimalInt(u));
    }

    method Int64(i: int) returns (ok: bool)
      requires Valid() && AllowsValue(levels, hasRoot, false) && -MAX_INT64 - 1 <= i <= MAX_INT64
      modifies this
      ensures ok && Valid() && Write(style, old(Now()), Event.Int64(i)) == Some(Now())
    {
      ok := WriteLeaf(Event.Int64(i), DecimalInt(i));
    }

    method Uint64(u: nat) returns (ok: bool)
      requires Valid() && AllowsValue(levels, hasRoot, false) && u <= MAX_UINT64
      modifies this
      ensures ok && Valid() && Write(style, old(Now()), Event.Uint64(u)) == Some(Now())
    {
      ok := WriteLeaf(Event.Uint64(u), DecimalInt(u));
    }

    /** A string value, and as `Key` a member name. */
    method String(s: bytes) returns (ok: bool)
      requires Valid() && AllowsValue(levels, hasRoot, true)
      modifies this
      ensures Valid() && (ok <==> Writable(style.target, s))
      ensures ok ==> Write(style, old(Now()), Event.String(s)) == Some(Now())
      ensures !ok ==> Now() == State(
        old(out) + Lead(style.format, old(levels)) + [QUOTE] + EscapeWhilePossible(style.target, s, 0),
        Counted(old(levels)), true)
    {
      Prefix(true);
      ok := WriteString(s);
    }

    method Key(s: bytes) returns (ok: bool)
      requires Valid() && AllowsValue(levels, hasRoot, true)
      modifies this
      ensures Valid() && (ok <==> Writable(style.target, s))
      ensures ok ==> Write(style, old(Now()), Event.Key(s)) == Some(Now())
      ensures !ok ==> Now() == State(
        old(out) + Lead(style.format, old(levels)) + [QUOTE] + EscapeWhilePossible(style.target, s, 0),
        Counted(old(levels)), true)
    {
      ok := String(s);
    }

    method StartObject() returns (ok: bool)
      requires Valid() && AllowsValue(levels, hasRoot, false)
      modifies this
      ensures ok && Valid() && Write(style, old(Now()), Event.StartObject) == Some(Now())
    {
      Prefix(false);
      levels := levels + [Level(false, 0)];
      Put(LEFT_CURLY);
      return true;
    }

    method StartArray() returns (ok: bool)
      requires Valid() && AllowsValue(levels, hasRoot, false)
      modifies this
      ensures ok && Valid() && Write(style, old(Now()), Event.StartArray) == Some(Now())
    {
      Prefix(false);
      levels := levels + [Level(true, 0)];
      Put(LEFT_BRACKET);
      return true;
    }

    method EndObject(memberCount: nat) returns (ok: bool)
      requires Valid() && AllowsEnd(levels, false)
      modifies this
      ensures ok && Valid() && Write(style, old(Now()), Event.EndObject(memberCount)) == Some(Now())
    {
      var empty := levels[|levels| - 1].valueCount == 0;
      levels := levels[..|levels| - 1];
      if !empty && style.format.Pretty? {
        PutNewline();
      }
      Put(RIGHT_CURLY);
      assert old(out) + [] == old(out);
      TextConcat(old(out), if empty then [] else Newline(style.format, |levels|), [RIGHT_CURLY]);
      return true;
    }

    method EndArray(elementCount: nat) returns (ok: bool)
      requires Valid() && AllowsEnd(levels, true)
      modifies this
      ensures ok && Valid() && Write(style, old(Now()), Event.EndArray(elementCount)) == Some(Now())
    {
      var empty := levels[|levels| - 1].valueCount == 0;
      levels := levels[..|levels| - 1];
      if !empty && style.format.Pretty? && !style.format.singleLineArray {
        PutNewline();
      }
      Put(RIGHT_BRACKET);
      assert old(out) + [] == old(out);
      TextConcat(old(out), if empty then [] else ArrayEndGap(style.format, |levels| + 1), [RIGHT_BRACKET]);
      return true;
    }
  }
}
