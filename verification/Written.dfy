/**
 What the writers put out, spelled out in bytes: the escapes of a string, the words and digits of other values, and
 how the texts of elements and members are joined in each format.
 */
module Written {
  import opened Bytes
  import opened Strings
  import opened Numbers
  import opened Dom
  import opened Layout
  import opened Grammar
  import Utf8

  // ---------------------------------------------------------------- Strings

  /** `\u` and four digits, the letters in upper case. */
  ghost function Escaped(u: nat): bytes
    requires u <= 0xFFFF
  {
    [0x5C, 0x75, UPPER[u / 4096], UPPER[u / 256 % 16], UPPER[u / 16 % 16], UPPER[u % 16]]
  }

  /** The short escape of a byte; the solidus has none when it is written. */
  ghost predicate ShortFor(c: byte, letter: byte) {
    (letter, c) in SHORT && c != 0x2F
  }

  /** A byte is written by its short escape, as `\u00XX` when it is another control, or as it is. */
  lemma ByteWritten(c: byte, letter: byte)
    ensures ShortFor(c, letter) ==> EscapeByte(c) == [0x5C, letter]
    ensures c < 0x20 && (forall e :: !ShortFor(c, e)) ==> EscapeByte(c) == Escaped(c)
    ensures c >= 0x20 && c != 0x22 && c != 0x5C ==> EscapeByte(c) == [c]
    ensures c == 0x22 || c == 0x5C ==> ShortFor(c, c)
  {
    if c < 0x20 && EscapeLetter(c) != LETTER_U {
      assert ShortFor(c, EscapeLetter(c)) by {
        assert SHORT[3] == (0x62, 0x08) && SHORT[4] == (0x66, 0x0C) && SHORT[5] == (0x6E, 0x0A);
        assert SHORT[6] == (0x72, 0x0D) && SHORT[7] == (0x74, 0x09);
      }
    }
    assert SHORT[0] == (0x22, 0x22) && SHORT[1] == (0x5C, 0x5C);
  }

  /** A code point of an ASCII target from 0x80 on is written as one escape, or as a pair above 0xFFFF. */
  lemma CodePointWritten(cp: int)
    requires Utf8.IsScalar(cp)
    ensures cp <= 0xFFFF ==> EscapeCodePoint(cp) == Escaped(cp)
    ensures cp > 0xFFFF ==>
      var s := cp - 0x10000;
      EscapeCodePoint(cp) == Escaped(0xD800 + s / 1024) + Escaped(0xDC00 + s % 1024)
  {
    if cp <= 0xFFFF {
      UnitWritten(cp);
    } else {
      var s := cp - 0x10000;
      UnitWritten(0xD800 + s / 1024);
      UnitWritten(0xDC00 + s % 1024);
    }
  }

  lemma UnitWritten(u: nat)
    requires u <= 0xFFFF
    ensures UnicodeEscape(u) == Escaped(u)
  {
    DigitWritten(u / 4096);
    DigitWritten(u / 256 % 16);
    DigitWritten(u / 16 % 16);
    DigitWritten(u % 16);
  }

  lemma DigitWritten(d: nat)
    requires d < 16
    ensures HexDigit(d) == UPPER[d]
  {
  }

  /** What an ASCII target gets for one code point. */
  ghost function CharText(cp: int): bytes
    requires Utf8.IsScalar(cp)
  {
    if cp >= 0x80 then EscapeCodePoint(cp) else EscapeByte(cp)
  }

  ghost predicate AreScalars(cps: seq<int>) {
    forall i | 0 <= i < |cps| :: Utf8.IsScalar(cps[i])
  }

  /** The UTF-8 text of code points. */
  ghost function Encoded(cps: seq<int>): bytes
    requires AreScalars(cps)
  {
    if cps == [] then [] else Utf8.Encode(cps[0]) + Encoded(cps[1..])
  }

  ghost function CharTexts(cps: seq<int>): bytes
    requires AreScalars(cps)
  {
    if cps == [] then [] else CharText(cps[0]) + CharTexts(cps[1..])
  }

  lemma UnitIs(s: bytes, i: nat, cp: int)
    requires Utf8.IsScalar(cp) && At(s, i, Utf8.Encode(cp))
    ensures i < |s| && UnitLength(AsciiTarget, s, i) == |Utf8.Encode(cp)| && UnitText(AsciiTarget, s, i) == CharText(cp)
  {
    Utf8.DecodeEncode(s, i, cp);
    AtPeek(s, i, Utf8.Encode(cp), 0);
    LeadByte(cp);
  }

  lemma LeadByte(cp: int)
    requires Utf8.IsScalar(cp)
    ensures if cp < 0x80 then Utf8.Encode(cp) == [cp] else Utf8.Encode(cp)[0] >= 0x80
  {
  }

  lemma EncodedAt(s: bytes, i: nat, cps: seq<int>)
    requires AreScalars(cps) && cps != [] && At(s, i, Encoded(cps))
    ensures At(s, i, Utf8.Encode(cps[0])) && At(s, i + |Utf8.Encode(cps[0])|, Encoded(cps[1..]))
    ensures |Encoded(cps)| == |Utf8.Encode(cps[0])| + |Encoded(cps[1..])|
  {
    AtSplit(s, i, Utf8.Encode(cps[0]), Encoded(cps[1..]));
  }

  /** For an ASCII target, a string of any code points is written one code point after the other. */
  lemma {:induction false} AsciiWritten(s: bytes, i: nat, cps: seq<int>)
    requires AreScalars(cps) && At(s, i, Encoded(cps)) && i + |Encoded(cps)| == |s|
    ensures Writable(AsciiTarget, s, i) && Escape(AsciiTarget, s, i) == CharTexts(cps)
    decreases |cps|
  {
    if cps != [] {
      EncodedAt(s, i, cps);
      UnitIs(s, i, cps[0]);
      AsciiWritten(s, i + |Utf8.Encode(cps[0])|, cps[1..]);
      EscapeStep(AsciiTarget, s, i);
    }
  }

  ghost function ByteTexts(s: bytes): bytes {
    if s == [] then [] else EscapeByte(s[0]) + ByteTexts(s[1..])
  }

  /** For a Unicode target, a string is written one byte after the other, well-formed or not. */
  lemma {:induction false} UnicodeWritten(s: bytes, i: nat)
    requires i <= |s| && Writable(UnicodeTarget, s, i)
    ensures Escape(UnicodeTarget, s, i) == ByteTexts(s[i..])
    decreases |s| - i
  {
    if i < |s| {
      assert s[i..][1..] == s[i + 1..];
      EscapeStep(UnicodeTarget, s, i);
      UnicodeWritten(s, i + 1);
    }
  }

  /** A string stands in quotation marks. */
  lemma StringWritten(target: Target, s: bytes)
    requires Writable(target, s)
    ensures Quoted(target, s) == [0x22] + Escape(target, s) + [0x22]
  {
  }

  // ---------------------------------------------------------------- Arrays and objects

  /** The parts with a separator between them. */
  ghost function Join(parts: seq<bytes>, separator: bytes): bytes
    requires parts != []
  {
    if |parts| == 1 then parts[0] else parts[0] + separator + Join(parts[1..], separator)
  }

  /** A line break and the indentation of `depth` levels. */
  ghost predicate IsLine(f: Format, depth: nat, line: bytes)
    requires f.Pretty?
  {
    && |line| == 1 + depth * f.indentCharCount && line[0] == 0x0A
    && forall i | 1 <= i < |line| :: line[i] == f.indentChar
  }

  lemma {:induction false} RepeatIs(c: byte, n: nat)
    ensures forall i | 0 <= i < n :: Repeat(c, n)[i] == c
    decreases n
  {
    if n > 0 {
      RepeatIs(c, n - 1);
    }
  }

  lemma LineIs(f: Format, depth: nat)
    requires f.Pretty?
    ensures IsLine(f, depth, Newline(f, depth))
  {
    RepeatIs(f.indentChar, depth * f.indentCharCount);
  }

  /** There is one such line for each depth. */
  lemma LinesAre(f: Format, depth: nat, inner: bytes, outer: bytes)
    requires f.Pretty? && IsLine(f, depth + 1, inner) && IsLine(f, depth, outer)
    ensures inner == Newline(f, depth + 1) && outer == Newline(f, depth)
  {
    LineIs(f, depth + 1);
    LineIs(f, depth);
  }

  /** Joining goes on after the first text. */
  lemma JoinStep(lead: bytes, texts: seq<bytes>, between: bytes, last: bytes, rest: bytes)
    requires texts != []
    requires rest == if |texts| == 1 then last else between + (Join(texts[1..], between) + last)
    ensures (lead + texts[0]) + rest == lead + (Join(texts, between) + last)
  {
    if |texts| > 1 {
      Regroup(texts[0], between, Join(texts[1..], between), last);
    }
    Associate(lead, texts[0], rest);
  }

  lemma Associate(a: bytes, b: bytes, c: bytes)
    ensures (a + b) + c == a + (b + c)
  {
  }

  lemma Regroup(text: bytes, between: bytes, others: bytes, last: bytes)
    ensures text + (between + (others + last)) == (text + between + others) + last
  {
    Associate(text, between, others + last);
    Associate(text + between, others, last);
  }

  /** The same gap stands before each element, the first one aside, and one that may differ before the bracket. */
  lemma {:induction false} ElementsJoined(
      st: Style, elements: seq<Value>, i: nat, depth: nat, texts: seq<bytes>, between: bytes, last: bytes)
    requires i < |elements| && (forall k | 0 <= k < |elements| :: Printable(st.target, elements[k])) && depth > 0
    requires |texts| == |elements| - i && forall k | 0 <= k < |texts| :: texts[k] == Print(st, elements[i + k], depth)
    requires between == [0x2C] + ElementGap(st.format, depth, true) && last == ArrayEndGap(st.format, depth) + [0x5D]
    ensures PrintElements(st, elements, i, depth)
         == Separator(i > 0) + ElementGap(st.format, depth, i > 0) + (Join(texts, between) + last)
    decreases |elements| - i
  {
    var lead := Separator(i > 0) + ElementGap(st.format, depth, i > 0);
    assert PrintElement(st, elements, i, depth) == lead + texts[0];
    if i + 1 < |elements| {
      ElementsJoined(st, elements, i + 1, depth, texts[1..], between, last);
    }
    JoinStep(lead, texts, between, last, PrintElements(st, elements, i + 1, depth));
  }

  /** Brackets around joined texts, with gaps inside the brackets. */
  ghost predicate Enclosed(text: bytes, open: byte, first: bytes, joined: bytes, last: bytes, close: byte) {
    text == [open] + first + joined + last + [close]
  }

  lemma EnclosedIs(text: bytes, open: byte, first: bytes, joined: bytes, last: bytes, close: byte)
    requires text == [open] + (first + (joined + (last + [close])))
    ensures Enclosed(text, open, first, joined, last, close)
  {
  }

  /**
   The text of an array that is not empty: its elements with commas between them, on lines of their own in the pretty
   format unless arrays are to be written on a single line, where a blank follows each comma.
   */
  lemma ArrayWritten(st: Style, elements: seq<Value>, depth: nat, texts: seq<bytes>, inner: bytes, outer: bytes)
    requires elements != [] && Printable(st.target, ArrayValue(elements))
    requires |texts| == |elements| && forall k | 0 <= k < |texts| :: texts[k] == Print(st, elements[k], depth + 1)
    requires st.format.Pretty? ==> IsLine(st.format, depth + 1, inner) && IsLine(st.format, depth, outer)
    ensures
      var text := Print(st, ArrayValue(elements), depth);
      if st.format.Compact? then Enclosed(text, 0x5B, [], Join(texts, [0x2C]), [], 0x5D)
      else if st.format.singleLineArray then Enclosed(text, 0x5B, [], Join(texts, [0x2C, 0x20]), [], 0x5D)
      else Enclosed(text, 0x5B, inner, Join(texts, [0x2C] + inner), outer, 0x5D)
  {
    var f := st.format;
    if f.Pretty? {
      LinesAre(f, depth, inner, outer);
    }
    var first, last := ElementGap(f, depth + 1, false), ArrayEndGap(f, depth + 1);
    var between := [0x2C] + ElementGap(f, depth + 1, true);
    ElementsJoined(st, elements, 0, depth + 1, texts, between, last + [0x5D]);
    assert Separator(false) + first == first && [0x2C] + [] == [0x2C] && [0x2C] + [SPACE] == [0x2C, 0x20];
    EnclosedIs(Print(st, ArrayValue(elements), depth), 0x5B, first, Join(texts, between), last, 0x5D);
  }

  /** The text of a member with its name, a colon, and a blank after it in the pretty format. */
  ghost predicate IsMemberText(st: Style, m: Member, depth: nat, text: bytes) {
    && Writable(st.target, m.name) && Printable(st.target, m.value)
    && var colon := if st.format.Compact? then [0x3A] else [0x3A, 0x20];
       text == Quoted(st.target, m.name) + colon + Print(st, m.value, depth)
  }

  lemma {:induction false} MembersJoined(
      st: Style, members: seq<Member>, i: nat, depth: nat, texts: seq<bytes>, between: bytes, last: bytes)
    requires i < |members| && Printable(st.target, ObjectValue(members)) && depth > 0
    requires |texts| == |members| - i
    requires forall k | 0 <= k < |texts| :: IsMemberText(st, members[i + k], depth, texts[k])
    requires between == [0x2C] + Newline(st.format, depth) && last == Newline(st.format, depth - 1) + [0x7D]
    ensures PrintMembers(st, members, i, depth)
         == Separator(i > 0) + Newline(st.format, depth) + (Join(texts, between) + last)
    decreases |members| - i
  {
    var lead := Separator(i > 0) + Newline(st.format, depth);
    MemberJoined(st, members, i, depth, texts[0]);
    if i + 1 < |members| {
      MembersJoined(st, members, i + 1, depth, texts[1..], between, last);
    }
    JoinStep(lead, texts, between, last, PrintMembers(st, members, i + 1, depth));
  }

  lemma MemberJoined(st: Style, members: seq<Member>, i: nat, depth: nat, text: bytes)
    requires i < |members| && IsMemberText(st, members[i], depth, text)
    ensures PrintMember(st, members, i, depth) == Separator(i > 0) + Newline(st.format, depth) + text
  {
    var lead, name := Separator(i > 0) + Newline(st.format, depth), Quoted(st.target, members[i].name);
    var gap, value := ColonGap(st.format), Print(st, members[i].value, depth);
    assert lead + name + [0x3A] + gap + value == lead + (name + ([0x3A] + gap) + value);
    assert [0x3A] + gap == if st.format.Compact? then [0x3A] else [0x3A, 0x20];
  }

  /** The text of an object that is not empty: its members with commas between them, on their own lines if pretty. */
  lemma ObjectWritten(st: Style, members: seq<Member>, depth: nat, texts: seq<bytes>, inner: bytes, outer: bytes)
    requires members != [] && Printable(st.target, ObjectValue(members))
    requires |texts| == |members| && forall k | 0 <= k < |texts| :: IsMemberText(st, members[k], depth + 1, texts[k])
    requires st.format.Pretty? ==> IsLine(st.format, depth + 1, inner) && IsLine(st.format, depth, outer)
    ensures
      var text := Print(st, ObjectValue(members), depth);
      if st.format.Compact? then Enclosed(text, 0x7B, [], Join(texts, [0x2C]), [], 0x7D)
      else Enclosed(text, 0x7B, inner, Join(texts, [0x2C] + inner), outer, 0x7D)
  {
    var f := st.format;
    if f.Pretty? {
      LinesAre(f, depth, inner, outer);
    }
    var first, last, between := Newline(f, depth + 1), Newline(f, depth), [0x2C] + Newline(f, depth + 1);
    MembersJoined(st, members, 0, depth + 1, texts, between, last + [0x7D]);
    assert Separator(false) + first == first && [0x2C] + [] == [0x2C];
    EnclosedIs(Print(st, ObjectValue(members), depth), 0x7B, first, Join(texts, between), last, 0x7D);
  }

  /** The other values, and containers without content. */
  lemma LeafWritten(st: Style, b: bool, i: int, depth: nat)
    requires InWord(i)
    ensures Print(st, NullValue, depth) == [0x6E, 0x75, 0x6C, 0x6C]
    ensures Print(st, BoolValue(b), depth) == if b then [0x74, 0x72, 0x75, 0x65] else [0x66, 0x61, 0x6C, 0x73, 0x65]
    ensures Print(st, ArrayValue([]), depth) == [0x5B, 0x5D] && Print(st, ObjectValue([]), depth) == [0x7B, 0x7D]
    ensures Print(st, Canonical(i), depth) == DecimalInt(i)
  {
    CanonicalNumeric(i);
  }

  /** The indentation is made of one of the four blanks. */
  lemma FormatsAre(f: Format)
    ensures ValidFormat(f) <==> f.Compact? || f.indentChar in {0x20, 0x09, 0x0A, 0x0D}
  {
  }
}
