/** The pretty text is the compact text with white space outside strings put in; ASCII output is ASCII. */
module WhiteSpace {
  import opened Bytes
  import opened Strings
  import opened Numbers
  import opened Dom
  import opened Layout
  import opened ReadBack
  import Utf8

  /** Where a character stands: outside strings, inside one, or just after a backslash inside one. */
  datatype Place = Outside | Inside | Escaped

  function Onward(place: Place, c: byte): Place {
    match place
    case Outside => if c == QUOTE then Inside else Outside
    case Inside => if c == QUOTE then Outside else if c == BACKSLASH then Escaped else Inside
    case Escaped => Inside
  }

  function PlaceAfter(place: Place, s: bytes): Place
    decreases |s|
  {
    if s == [] then place else PlaceAfter(Onward(place, s[0]), s[1..])
  }

  /** The text without the white space that stands outside strings. */
  function Squeeze(place: Place, s: bytes): bytes
    decreases |s|
  {
    if s == [] then []
    else (if place.Outside? && IsSpace(s[0]) then [] else [s[0]]) + Squeeze(Onward(place, s[0]), s[1..])
  }

  lemma {:induction false} SqueezeConcat(place: Place, a: bytes, b: bytes)
    ensures PlaceAfter(place, a + b) == PlaceAfter(PlaceAfter(place, a), b)
    ensures Squeeze(place, a + b) == Squeeze(place, a) + Squeeze(PlaceAfter(place, a), b)
    decreases |a|
  {
    if a == [] {
      assert a + b == b;
    } else {
      assert (a + b)[1..] == a[1..] + b;
      SqueezeConcat(Onward(place, a[0]), a[1..], b);
    }
  }

  /** A part that begins and ends outside strings and squeezes to `b`. */
  ghost predicate Squeezes(a: bytes, b: bytes) {
    PlaceAfter(Outside, a) == Outside && Squeeze(Outside, a) == b
  }

  lemma Joined(a: bytes, b: bytes, c: bytes, d: bytes)
    requires Squeezes(a, b) && Squeezes(c, d)
    ensures Squeezes(a + c, b + d)
  {
    SqueezeConcat(Outside, a, c);
  }

  lemma {:induction false} SpaceSqueezes(s: bytes)
    requires AllSpace(s)
    ensures Squeezes(s, [])
    decreases |s|
  {
    if s != [] {
      SpaceSqueezes(s[1..]);
    }
  }

  lemma {:induction false} PlainSqueezes(s: bytes)
    requires forall i | 0 <= i < |s| :: !IsSpace(s[i]) && s[i] != QUOTE
    ensures Squeezes(s, s)
    decreases |s|
  {
    if s != [] {
      PlainSqueezes(s[1..]);
      assert s == [s[0]] + s[1..];
    }
  }

  /** One written unit stays inside the string. */
  ghost predicate KeptInside(s: bytes) {
    PlaceAfter(Inside, s) == Inside && Squeeze(Inside, s) == s
  }

  lemma KeptJoined(a: bytes, b: bytes)
    requires KeptInside(a) && KeptInside(b)
    ensures KeptInside(a + b)
  {
    SqueezeConcat(Inside, a, b);
  }

  lemma KeptPair(x: byte)
    ensures KeptInside([BACKSLASH, x])
  {
    assert [BACKSLASH, x][1..] == [x] && [x][1..] == [];
    assert Squeeze(Escaped, [x]) == [x] && PlaceAfter(Escaped, [x]) == Inside;
  }

  lemma {:induction false} KeptPlain(s: bytes)
    requires forall i | 0 <= i < |s| :: s[i] != QUOTE && s[i] != BACKSLASH
    ensures KeptInside(s)
    decreases |s|
  {
    if s != [] {
      KeptPlain(s[1..]);
      assert s == [s[0]] + s[1..];
    }
  }

  lemma KeptUnicodeEscape(u: nat)
    requires u <= 0xFFFF
    ensures KeptInside(UnicodeEscape(u))
  {
    var s := UnicodeEscape(u);
    KeptPair(LETTER_U);
    KeptPlain(s[2..]);
    assert s == [BACKSLASH, LETTER_U] + s[2..];
    KeptJoined([BACKSLASH, LETTER_U], s[2..]);
  }

  lemma KeptByte(c: byte)
    ensures KeptInside(EscapeByte(c))
  {
    var s := EscapeByte(c);
    if |s| == 1 {
      KeptPlain(s);
    } else if |s| == 2 {
      KeptPair(s[1]);
    } else {
      assert s == UnicodeEscape(c);
      KeptUnicodeEscape(c);
    }
  }

  lemma KeptCodePoint(cp: int)
    requires Utf8.IsScalar(cp)
    ensures KeptInside(EscapeCodePoint(cp))
  {
    if cp <= 0xFFFF {
      KeptUnicodeEscape(cp);
    } else {
      var x := cp - 0x10000;
      KeptUnicodeEscape(x / 0x400 + 0xD800);
      KeptUnicodeEscape(x % 0x400 + 0xDC00);
      KeptJoined(UnicodeEscape(x / 0x400 + 0xD800), UnicodeEscape(x % 0x400 + 0xDC00));
    }
  }

  lemma KeptUnit(target: Target, s: bytes, i: nat)
    requires i < |s| && UnitLength(target, s, i) != 0
    ensures KeptInside(UnitText(target, s, i))
  {
    if target.AsciiTarget? && s[i] >= 0x80 {
      KeptCodePoint(Utf8.CharValue(s, i));
    } else {
      KeptByte(s[i]);
    }
  }

  lemma {:induction false} KeptEscape(target: Target, s: bytes, i: nat)
    requires i <= |s| && Writable(target, s, i)
    ensures KeptInside(Escape(target, s, i))
    decreases |s| - i
  {
    if i < |s| {
      EscapeStep(target, s, i);
      var n := UnitLength(target, s, i);
      KeptUnit(target, s, i);
      KeptEscape(target, s, i + n);
      KeptJoined(UnitText(target, s, i), Escape(target, s, i + n));
    }
  }

  lemma QuotedSqueezes(target: Target, s: bytes)
    requires Writable(target, s)
    ensures Squeezes(Quoted(target, s), Quoted(target, s))
  {
    KeptEscape(target, s, 0);
    var body := Escape(target, s);
    assert [QUOTE][1..] == [];
    SqueezeConcat(Outside, [QUOTE], body);
    SqueezeConcat(Outside, [QUOTE] + body, [QUOTE]);
  }

  lemma {:induction false} DecimalSqueezes(n: nat)
    ensures Squeezes(Decimal(n), Decimal(n))
    ensures forall i | 0 <= i < |Decimal(n)| :: IsDigit(Decimal(n)[i])
    decreases n
  {
    if n >= 10 {
      DecimalSqueezes(n / 10);
    }
    PlainSqueezes(Decimal(n));
  }

  function Plain(st: Style): Style {
    st.(format := Compact)
  }

  lemma One(c: byte)
    requires !IsSpace(c) && c != QUOTE
    ensures Squeezes([c], [c])
  {
    PlainSqueezes([c]);
  }

  lemma LeafSqueezes(st: Style, v: Value, depth: nat)
    requires ValidFormat(st.format) && Printable(st.target, v) && !v.ArrayValue? && !v.ObjectValue?
    ensures Squeezes(Print(st, v, depth), Print(Plain(st), v, depth))
  {
    match v {
      case NullValue => PlainSqueezes(NULL_WORD);
      case BoolValue(b) => PlainSqueezes(if b then TRUE_WORD else FALSE_WORD);
      case NumberValue(word, flags) =>
        var i := Numeric(word, flags);
        DecimalSqueezes(if i < 0 then -i else i);
        if i < 0 {
          One(MINUS);
          Joined([MINUS], [MINUS], Decimal(-i), Decimal(-i));
        }
      case StringValue(str) => QuotedSqueezes(st.target, str);
    }
  }

  /** Whatever the format, the text of a value squeezes to its compact text. */
  lemma {:induction false} PrettyIsSpacedCompact(st: Style, v: Value, depth: nat)
    requires ValidFormat(st.format) && Printable(st.target, v)
    ensures Squeezes(Print(st, v, depth), Print(Plain(st), v, depth))
    decreases v, 1
  {
    match v {
      case ArrayValue(elements) =>
        ElementsSqueeze(st, elements, 0, depth + 1);
        One(LEFT_BRACKET);
        Joined([LEFT_BRACKET], [LEFT_BRACKET],
          PrintElements(st, elements, 0, depth + 1), PrintElements(Plain(st), elements, 0, depth + 1));
      case ObjectValue(members) =>
        MembersSqueeze(st, members, 0, depth + 1);
        One(LEFT_CURLY);
        Joined([LEFT_CURLY], [LEFT_CURLY],
          PrintMembers(st, members, 0, depth + 1), PrintMembers(Plain(st), members, 0, depth + 1));
      case _ =>
        LeafSqueezes(st, v, depth);
    }
  }

  lemma SeparatorSqueezes(later: bool)
    ensures Squeezes(Separator(later), Separator(later))
  {
    PlainSqueezes(Separator(later));
  }

  lemma {:induction false} ElementsSqueeze(st: Style, elements: seq<Value>, i: nat, depth: nat)
    requires ValidFormat(st.format) && depth > 0 && i <= |elements|
    requires forall k | 0 <= k < |elements| :: Printable(st.target, elements[k])
    ensures Squeezes(PrintElements(st, elements, i, depth), PrintElements(Plain(st), elements, i, depth))
    decreases elements, 0, |elements| - i
  {
    if i == |elements| {
      ArrayEndGapIsSpace(st.format, depth);
      var gap := if i == 0 then [] else ArrayEndGap(st.format, depth);
      SpaceSqueezes(gap);
      One(RIGHT_BRACKET);
      Joined(gap, [], [RIGHT_BRACKET], [RIGHT_BRACKET]);
    } else {
      PrettyIsSpacedCompact(st, elements[i], depth);
      ElementSqueezes(st, elements, i, depth);
      ElementsSqueeze(st, elements, i + 1, depth);
      Joined(PrintElement(st, elements, i, depth), PrintElement(Plain(st), elements, i, depth),
        PrintElements(st, elements, i + 1, depth), PrintElements(Plain(st), elements, i + 1, depth));
    }
  }

  lemma ElementSqueezes(st: Style, elements: seq<Value>, i: nat, depth: nat)
    requires ValidFormat(st.format) && i < |elements| && Printable(st.target, elements[i])
    requires Squeezes(Print(st, elements[i], depth), Print(Plain(st), elements[i], depth))
    ensures Squeezes(PrintElement(st, elements, i, depth), PrintElement(Plain(st), elements, i, depth))
  {
    var comma, gap := Separator(i > 0), ElementGap(st.format, depth, i > 0);
    SeparatorSqueezes(i > 0);
    ElementGapIsSpace(st.format, depth, i > 0);
    SpaceSqueezes(gap);
    Joined(comma, comma, gap, []);
    Joined(comma + gap, comma + [], Print(st, elements[i], depth), Print(Plain(st), elements[i], depth));
  }

  lemma {:induction false} MembersSqueeze(st: Style, members: seq<Member>, i: nat, depth: nat)
    requires ValidFormat(st.format) && depth > 0 && i <= |members|
    requires forall k | 0 <= k < |members| ::
      Writable(st.target, members[k].name) && Printable(st.target, members[k].value)
    ensures Squeezes(PrintMembers(st, members, i, depth), PrintMembers(Plain(st), members, i, depth))
    decreases members, 0, |members| - i
  {
    if i == |members| {
      NewlineIsSpace(st.format, depth - 1);
      var gap := if i == 0 then [] else Newline(st.format, depth - 1);
      SpaceSqueezes(gap);
      One(RIGHT_CURLY);
      Joined(gap, [], [RIGHT_CURLY], [RIGHT_CURLY]);
    } else {
      PrettyIsSpacedCompact(st, members[i].value, depth);
      MemberSqueezes(st, members, i, depth);
      MembersSqueeze(st, members, i + 1, depth);
      Joined(PrintMember(st, members, i, depth), PrintMember(Plain(st), members, i, depth),
        PrintMembers(st, members, i + 1, depth), PrintMembers(Plain(st), members, i + 1, depth));
    }
  }

  lemma MemberSqueezes(st: Style, members: seq<Member>, i: nat, depth: nat)
    requires ValidFormat(st.format) && i < |members|
    requires Writable(st.target, members[i].name) && Printable(st.target, members[i].value)
    requires Squeezes(Print(st, members[i].value, depth), Print(Plain(st), members[i].value, depth))
    ensures Squeezes(PrintMember(st, members, i, depth), PrintMember(Plain(st), members, i, depth))
  {
    var comma, gap, name := Separator(i > 0), Newline(st.format, depth), Quoted(st.target, members[i].name);
    SeparatorSqueezes(i > 0);
    NewlineIsSpace(st.format, depth);
    SpaceSqueezes(gap);
    QuotedSqueezes(st.target, members[i].name);
    One(COLON);
    SpaceSqueezes(ColonGap(st.format));
    Joined(comma, comma, gap, []);
    Joined(comma + gap, comma + [], name, name);
    Joined(comma + gap + name, comma + [] + name, [COLON], [COLON]);
    Joined(comma + gap + name + [COLON], comma + [] + name + [COLON], ColonGap(st.format), []);
    Joined(comma + gap + name + [COLON] + ColonGap(st.format), comma + [] + name + [COLON] + [],
      Print(st, members[i].value, depth), Print(Plain(st), members[i].value, depth));
  }

  // ---------------------------------------------------------------- ASCII output

  lemma {:induction false} RepeatIsAscii(c: byte, n: nat)
    requires IsSpace(c)
    ensures IsAscii(Repeat(c, n))
  {
    if n > 0 {
      RepeatIsAscii(c, n - 1);
    }
  }

  lemma NewlineIsAscii(f: Format, depth: nat)
    requires ValidFormat(f)
    ensures IsAscii(Newline(f, depth))
  {
    if f.Pretty? {
      RepeatIsAscii(f.indentChar, depth * f.indentCharCount);
    }
  }

  /** The whole text of a value written to an ASCII target is ASCII, in every format. */
  lemma {:induction false} PrintIsAscii(f: Format, v: Value, depth: nat)
    requires ValidFormat(f) && Printable(AsciiTarget, v)
    ensures IsAscii(Print(Style(f, AsciiTarget), v, depth))
    decreases v, 1
  {
    match v {
      case NumberValue(word, flags) =>
        var i := Numeric(word, flags);
        DecimalSqueezes(if i < 0 then -i else i);
      case StringValue(str) => QuotedIsAscii(str);
      case ArrayValue(elements) => ElementsAreAscii(f, elements, 0, depth + 1);
      case ObjectValue(members) => MembersAreAscii(f, members, 0, depth + 1);
      case _ =>
    }
  }

  lemma {:induction false} ElementsAreAscii(f: Format, elements: seq<Value>, i: nat, depth: nat)
    requires ValidFormat(f) && depth > 0 && i <= |elements|
    requires forall k | 0 <= k < |elements| :: Printable(AsciiTarget, elements[k])
    ensures IsAscii(PrintElements(Style(f, AsciiTarget), elements, i, depth))
    decreases elements, 0, |elements| - i
  {
    NewlineIsAscii(f, depth - 1);
    if i < |elements| {
      NewlineIsAscii(f, depth);
      PrintIsAscii(f, elements[i], depth);
      ElementsAreAscii(f, elements, i + 1, depth);
    }
  }

  lemma {:induction false} MembersAreAscii(f: Format, members: seq<Member>, i: nat, depth: nat)
    requires ValidFormat(f) && depth > 0 && i <= |members|
    requires forall k | 0 <= k < |members| ::
      Writable(AsciiTarget, members[k].name) && Printable(AsciiTarget, members[k].value)
    ensures IsAscii(PrintMembers(Style(f, AsciiTarget), members, i, depth))
    decreases members, 0, |members| - i
  {
    NewlineIsAscii(f, depth - 1);
    if i < |members| {
      PrintIsAscii(f, members[i].value, depth);
      MemberIsAscii(f, members, i, depth);
      MembersAreAscii(f, members, i + 1, depth);
      AsciiConcat(PrintMember(Style(f, AsciiTarget), members, i, depth),
        PrintMembers(Style(f, AsciiTarget), members, i + 1, depth));
    }
  }

  lemma MemberIsAscii(f: Format, members: seq<Member>, i: nat, depth: nat)
    requires ValidFormat(f) && i < |members|
    requires Writable(AsciiTarget, members[i].name) && Printable(AsciiTarget, members[i].value)
    requires IsAscii(Print(Style(f, AsciiTarget), members[i].value, depth))
    ensures IsAscii(PrintMember(Style(f, AsciiTarget), members, i, depth))
  {
    var start, name := Separator(i > 0) + Newline(f, depth), Quoted(AsciiTarget, members[i].name);
    NewlineIsAscii(f, depth);
    AsciiConcat(Separator(i > 0), Newline(f, depth));
    QuotedIsAscii(members[i].name);
    AsciiConcat(start, name);
    AsciiConcat(start + name, [COLON]);
    AsciiConcat(start + name + [COLON], ColonGap(f));
    AsciiConcat(start + name + [COLON] + ColonGap(f), Print(Style(f, AsciiTarget), members[i].value, depth));
  }

  lemma QuotedIsAscii(s: bytes)
    requires Writable(AsciiTarget, s)
    ensures IsAscii(Quoted(AsciiTarget, s))
  {
    EscapeIsAscii(s, 0);
  }

  lemma AsciiConcat(a: bytes, b: bytes)
    requires IsAscii(a) && IsAscii(b)
    ensures IsAscii(a + b)
  {
  }
}
