/** What the parser makes of printed text, in every format and for both targets. */
module ReadBack {
  import opened Bytes
  import opened Sax
  import opened Strings
  import opened Numbers
  import opened Dom
  import opened Layout
  import Descent

  /** A handler that never refuses. */
  ghost predicate AcceptsAll(cfg: Config) {
    forall log :: cfg.accepts(log)
  }

  // ---------------------------------------------------------------- White space

  lemma {:induction false} RepeatIsSpace(c: byte, n: nat)
    requires IsSpace(c)
    ensures AllSpace(Repeat(c, n))
    decreases n
  {
    if n > 0 {
      RepeatIsSpace(c, n - 1);
    }
  }

  lemma NewlineIsSpace(f: Format, depth: nat)
    requires ValidFormat(f)
    ensures AllSpace(Newline(f, depth))
  {
    if f.Pretty? {
      RepeatIsSpace(f.indentChar, depth * f.indentCharCount);
    }
  }

  lemma ElementGapIsSpace(f: Format, depth: nat, later: bool)
    requires ValidFormat(f)
    ensures AllSpace(ElementGap(f, depth, later))
  {
    NewlineIsSpace(f, depth);
  }

  lemma ArrayEndGapIsSpace(f: Format, depth: nat)
    requires ValidFormat(f) && depth > 0
    ensures AllSpace(ArrayEndGap(f, depth))
  {
    NewlineIsSpace(f, depth - 1);
  }

  /** A character that starts no white space and no comment. */
  predicate Solid(c: byte) {
    !IsSpace(c) && c != SLASH
  }

  /** Printed white space before a solid character is skipped. */
  lemma SkipGap(cfg: Config, t: bytes, p: nat, gap: bytes, rest: bytes, log: seq<Event>)
    requires At(t, p, gap + rest) && AllSpace(gap) && rest != [] && Solid(rest[0])
    ensures Blank(cfg, t, p, log) == Fine(p + |gap|, log) && At(t, p + |gap|, rest)
  {
    AtSplit(t, p, gap, rest);
    AtPeek(t, p + |gap|, rest, 0);
    BlankIs(cfg, t, p, gap, log);
  }

  lemma NoGap(cfg: Config, t: bytes, p: nat, rest: bytes, log: seq<Event>)
    requires At(t, p, rest) && rest != [] && Solid(rest[0])
    ensures Blank(cfg, t, p, log) == Fine(p, log)
  {
    assert [] + rest == rest;
    SkipGap(cfg, t, p, [], rest, log);
  }

  // ---------------------------------------------------------------- First characters

  lemma {:induction false} DecimalHead(n: nat)
    ensures IsDigit(Decimal(n)[0])
    decreases n
  {
    if n >= 10 {
      DecimalHead(n / 10);
    }
  }

  /** The first character of a value. */
  predicate StartsValue(c: byte) {
    Solid(c) && c != 0 && c != RIGHT_BRACKET && c != RIGHT_CURLY
  }

  lemma PrintHead(st: Style, v: Value, depth: nat)
    requires Printable(st.target, v)
    ensures Print(st, v, depth) != [] && StartsValue(Print(st, v, depth)[0])
  {
    if v.NumberValue? {
      var i := Numeric(v.word, v.flags);
      DecimalHead(if i < 0 then -i else i);
    }
  }

  /** The first character of what follows a value: it ends a number. */
  lemma ElementsHead(st: Style, elements: seq<Value>, i: nat, depth: nat)
    requires i <= |elements| && forall k | 0 <= k < |elements| :: Printable(st.target, elements[k])
    requires 0 < i && 0 < depth
    ensures PrintElements(st, elements, i, depth) != [] && EndsNumber(PrintElements(st, elements, i, depth)[0])
  {
  }

  lemma MembersHead(st: Style, members: seq<Member>, i: nat, depth: nat)
    requires i <= |members| && forall k | 0 <= k < |members| ::
      Writable(st.target, members[k].name) && Printable(st.target, members[k].value)
    requires 0 < i && 0 < depth
    ensures PrintMembers(st, members, i, depth) != [] && EndsNumber(PrintMembers(st, members, i, depth)[0])
  {
  }

  // ---------------------------------------------------------------- Leaves

  lemma {:induction false} MatchedWord(t: bytes, p: nat, word: bytes)
    requires At(t, p, word) && 0 !in word
    ensures Descent.Matched(t, p, word) == |word|
    decreases |word|
  {
    if word != [] {
      MatchedWord(t, p + 1, word[1..]);
    }
  }

  lemma ReadWord(cfg: Config, t: bytes, p: nat, word: bytes, e: Event, log: seq<Event>)
    requires AcceptsAll(cfg) && At(t, p, word) && 0 !in word && word != [] && (e.Null? || e.Bool?)
    ensures Descent.Word(cfg, t, p, word, e, log) == Fine(p + |word|, log + [e])
  {
    MatchedWord(t, p, word);
  }

  lemma ReadQuote(cfg: Config, target: Target, t: bytes, p: nat, s: bytes, isKey: bool, log: seq<Event>)
    requires AcceptsAll(cfg) && Writable(target, s) && At(t, p, Quoted(target, s))
    ensures p < |t| && t[p] == QUOTE
    ensures Descent.Quote(cfg, t, p, isKey, log)
      == Fine(p + |Quoted(target, s)|, log + [if isKey then Key(s) else String(s)])
  {
    assert Quoted(target, s) == [QUOTE] + (Escape(target, s) + [QUOTE]);
    AtPeek(t, p, Quoted(target, s), 0);
    AtSplit(t, p, [QUOTE], Escape(target, s) + [QUOTE]);
    UnescapeEscape(target, s, t, p + 1);
  }

  lemma ReadBool(cfg: Config, t: bytes, p: nat, b: bool, log: seq<Event>)
    requires AcceptsAll(cfg) && At(t, p, if b then TRUE_WORD else FALSE_WORD)
    ensures Descent.Value(cfg, t, p, log) == Fine(p + if b then 4 else 5, log + [Bool(b)])
  {
    var word := if b then TRUE_WORD else FALSE_WORD;
    AtPeek(t, p, word, 0);
    ReadWord(cfg, t, p, word, Bool(b), log);
  }

  lemma ReadNull(cfg: Config, t: bytes, p: nat, log: seq<Event>)
    requires AcceptsAll(cfg) && At(t, p, NULL_WORD)
    ensures Descent.Value(cfg, t, p, log) == Fine(p + 4, log + [Null])
  {
    AtPeek(t, p, NULL_WORD, 0);
    ReadWord(cfg, t, p, NULL_WORD, Null, log);
  }

  lemma ReadString(cfg: Config, target: Target, t: bytes, p: nat, s: bytes, log: seq<Event>)
    requires AcceptsAll(cfg) && Writable(target, s) && At(t, p, Quoted(target, s))
    ensures Descent.Value(cfg, t, p, log) == Fine(p + |Quoted(target, s)|, log + [String(s)])
  {
    ReadQuote(cfg, target, t, p, s, false, log);
  }

  lemma NumberIsScalar(cfg: Config, t: bytes, p: nat, log: seq<Event>)
    requires p < |t| && (IsDigit(t[p]) || t[p] == MINUS)
    ensures Descent.Value(cfg, t, p, log) == Number(cfg, t, p, log)
  {
  }

  lemma ReadNumber(cfg: Config, t: bytes, p: nat, i: int, log: seq<Event>)
    requires AcceptsAll(cfg) && InWord(i) && At(t, p, DecimalInt(i)) && EndsNumber(Peek(t, p + |DecimalInt(i)|))
    ensures Descent.Value(cfg, t, p, log) == Fine(p + |DecimalInt(i)|, log + [RereadEvent(i)])
  {
    DecimalHead(if i < 0 then -i else i);
    AtPeek(t, p, DecimalInt(i), 0);
    NumberIsScalar(cfg, t, p, log);
    NumberDecimalInt(cfg, t, p, i, log);
  }

  lemma LogConcat(a: seq<Event>, b: seq<Event>, c: seq<Event>)
    ensures a + b + c == a + (b + c)
  {
  }

  lemma LogBrackets(a: seq<Event>, b: seq<Event>, c: seq<Event>, d: seq<Event>)
    ensures a + b + c + d == a + (b + c + d)
  {
  }

  // ---------------------------------------------------------------- Values

  /** Printing a value and parsing the text gives the value's events and ends where the text ends. */
  lemma {:induction false} ReadValue(cfg: Config, st: Style, v: Value, depth: nat, t: bytes, p: nat, log: seq<Event>)
    requires AcceptsAll(cfg) && ValidFormat(st.format) && WellFormed(v) && Printable(st.target, v)
    requires At(t, p, Print(st, v, depth)) && EndsNumber(Peek(t, p + |Print(st, v, depth)|))
    ensures Descent.Value(cfg, t, p, log) == Fine(p + |Print(st, v, depth)|, log + Generate(v, true))
    decreases v, 2
  {
    match v {
      case NullValue => ReadNull(cfg, t, p, log);
      case BoolValue(b) => ReadBool(cfg, t, p, b, log);
      case NumberValue(word, flags) => ReadNumber(cfg, t, p, Numeric(word, flags), log);
      case StringValue(str) => ReadString(cfg, st.target, t, p, str, log);
      case ArrayValue(elements) => ReadArray(cfg, st, elements, depth + 1, t, p, log);
      case ObjectValue(members) => ReadObject(cfg, st, members, depth + 1, t, p, log);
    }
  }

  // ---------------------------------------------------------------- Arrays

  ghost predicate GoodElements(st: Style, elements: seq<Value>) {
    && |elements| <= MAX_UINT32
    && (forall k | 0 <= k < |elements| :: WellFormed(elements[k]))
    && (forall k | 0 <= k < |elements| :: Printable(st.target, elements[k]))
  }

  lemma ArrayStart(cfg: Config, t: bytes, p: nat, log: seq<Event>, q: nat)
    requires AcceptsAll(cfg) && p < |t| && t[p] == LEFT_BRACKET
    requires Blank(cfg, t, p + 1, log + [StartArray]) == Fine(q, log + [StartArray]) && q <= |t|
    ensures Descent.Value(cfg, t, p, log) ==
      if Peek(t, q) == RIGHT_BRACKET then Fine(q + 1, log + [StartArray] + [EndArray(0)])
      else Descent.Elements(cfg, t, q, log + [StartArray], 0)
  {
    assert Descent.Value(cfg, t, p, log) == Descent.Array(cfg, t, p, log);
  }

  lemma {:induction false} ReadArray(
    cfg: Config, st: Style, elements: seq<Value>, depth: nat, t: bytes, p: nat, log: seq<Event>)
    requires AcceptsAll(cfg) && ValidFormat(st.format) && GoodElements(st, elements) && depth > 0
    requires At(t, p, [LEFT_BRACKET] + PrintElements(st, elements, 0, depth))
    ensures Descent.Value(cfg, t, p, log) == Fine(p + 1 + |PrintElements(st, elements, 0, depth)|,
      log + ([StartArray] + GenerateElements(elements, 0, true) + [EndArray(|elements|)]))
    decreases elements, 5
  {
    var text := PrintElements(st, elements, 0, depth);
    var log' := log + [StartArray];
    AtPeek(t, p, [LEFT_BRACKET] + text, 0);
    AtSplit(t, p, [LEFT_BRACKET], text);
    if elements == [] {
      assert text == [RIGHT_BRACKET];
      AtPeek(t, p + 1, text, 0);
      NoGap(cfg, t, p + 1, text, log');
      ArrayStart(cfg, t, p, log, p + 1);
      LogBrackets(log, [StartArray], [], [EndArray(0)]);
      assert log' + [] == log';
    } else {
      var q := SkipElementGap(cfg, st, elements, 0, depth, t, p + 1, log');
      ArrayStart(cfg, t, p, log, q);
      ReadElements(cfg, st, elements, 0, depth, t, q, log');
      LogBrackets(log, [StartArray], GenerateElements(elements, 0, true), [EndArray(|elements|)]);
    }
  }

  /** What stands from the `i`-th element's own text on. */
  ghost function FromElement(st: Style, elements: seq<Value>, i: nat, depth: nat): bytes
    requires i < |elements| && depth > 0 && forall k | 0 <= k < |elements| :: Printable(st.target, elements[k])
  {
    Print(st, elements[i], depth) + PrintElements(st, elements, i + 1, depth)
  }

  lemma TextConcat(a: bytes, b: bytes, c: bytes, d: bytes)
    ensures (a + b + c) + d == a + (b + (c + d))
  {
  }

  lemma ElementText(st: Style, elements: seq<Value>, i: nat, depth: nat)
    requires i < |elements| && depth > 0 && forall k | 0 <= k < |elements| :: Printable(st.target, elements[k])
    ensures PrintElements(st, elements, i, depth)
      == Separator(i > 0) + (ElementGap(st.format, depth, i > 0) + FromElement(st, elements, i, depth))
    ensures FromElement(st, elements, i, depth) != [] && StartsValue(FromElement(st, elements, i, depth)[0])
  {
    PrintHead(st, elements[i], depth);
    assert PrintElements(st, elements, i, depth)
      == PrintElement(st, elements, i, depth) + PrintElements(st, elements, i + 1, depth);
    TextConcat(Separator(i > 0), ElementGap(st.format, depth, i > 0), Print(st, elements[i], depth),
      PrintElements(st, elements, i + 1, depth));
  }

  /** The white space before an element, after its comma if there is one. */
  lemma SkipElementGap(
    cfg: Config, st: Style, elements: seq<Value>, i: nat, depth: nat, t: bytes, p: nat, log: seq<Event>)
    returns (q: nat)
    requires ValidFormat(st.format) && GoodElements(st, elements) && i < |elements| && depth > 0
    requires p <= |t|
    requires if i == 0 then At(t, p, PrintElements(st, elements, 0, depth))
      else p > 0 && At(t, p - 1, PrintElements(st, elements, i, depth))
    ensures q <= |t| && Blank(cfg, t, p, log) == Fine(q, log) && At(t, q, FromElement(st, elements, i, depth))
    ensures Peek(t, q) != RIGHT_BRACKET
    ensures i > 0 ==> Peek(t, p - 1) == COMMA
    ensures q + |FromElement(st, elements, i, depth)|
      == (if i == 0 then p else p - 1) + |PrintElements(st, elements, i, depth)|
  {
    ElementText(st, elements, i, depth);
    var gap, from := ElementGap(st.format, depth, i > 0), FromElement(st, elements, i, depth);
    ElementGapIsSpace(st.format, depth, i > 0);
    if i > 0 {
      AtPeek(t, p - 1, [COMMA] + (gap + from), 0);
      AtSplit(t, p - 1, [COMMA], gap + from);
    } else {
      assert [] + (gap + from) == gap + from;
    }
    SkipGap(cfg, t, p, gap, from, log);
    q := p + |gap|;
    AtPeek(t, q, from, 0);
  }

  lemma {:induction false} ReadElements(
    cfg: Config, st: Style, elements: seq<Value>, i: nat, depth: nat, t: bytes, p: nat, log: seq<Event>)
    requires AcceptsAll(cfg) && ValidFormat(st.format) && GoodElements(st, elements) && i < |elements| && depth > 0
    requires At(t, p, FromElement(st, elements, i, depth))
    ensures Descent.Elements(cfg, t, p, log, i) == Fine(p + |FromElement(st, elements, i, depth)|,
      log + GenerateElements(elements, i, true) + [EndArray(|elements|)])
    decreases elements, 4, |elements| - i, 0
  {
    var q, log' := ReadOwnElement(cfg, st, elements, i, depth, t, p, log);
    ReadAfterElement(cfg, st, elements, i + 1, depth, t, q, log');
    LogConcat(log, Generate(elements[i], true), GenerateElements(elements, i + 1, true));
  }

  /** The element itself is read up to `q`; what follows it is left. */
  lemma {:induction false} ReadOwnElement(
    cfg: Config, st: Style, elements: seq<Value>, i: nat, depth: nat, t: bytes, p: nat, log: seq<Event>)
    returns (q: nat, log': seq<Event>)
    requires AcceptsAll(cfg) && ValidFormat(st.format) && GoodElements(st, elements) && i < |elements| && depth > 0
    requires At(t, p, FromElement(st, elements, i, depth))
    ensures q == p + |Print(st, elements[i], depth)| <= |t| && log' == log + Generate(elements[i], true)
    ensures At(t, q, PrintElements(st, elements, i + 1, depth))
    ensures Descent.Elements(cfg, t, p, log, i) == AfterBlank(cfg, t, q, log', i + 1)
    decreases elements, 3
  {
    var own, rest := Print(st, elements[i], depth), PrintElements(st, elements, i + 1, depth);
    AtSplit(t, p, own, rest);
    ElementsHead(st, elements, i + 1, depth);
    AtPeek(t, p + |own|, rest, 0);
    ReadValue(cfg, st, elements[i], depth, t, p, log);
    q, log' := p + |own|, log + Generate(elements[i], true);
    ElementsThen(cfg, t, p, log, i, Fine(q, log'));
  }

  /** What the parser does with the text after an element. */
  ghost function AfterBlank(cfg: Config, t: bytes, p: nat, log: seq<Event>, count: nat): Outcome
    requires p <= |t|
  {
    var after := Blank(cfg, t, p, log);
    if after.Halt? then after else Descent.AfterElement(cfg, t, after.pos, after.log, count)
  }

  lemma ElementsThen(cfg: Config, t: bytes, p: nat, log: seq<Event>, count: nat, value: Outcome)
    requires p <= |t| && Descent.Value(cfg, t, p, log) == value && value.Fine?
    ensures Descent.Elements(cfg, t, p, log, count) == AfterBlank(cfg, t, value.pos, value.log, Next32(count))
  {
  }

  lemma ElementComma(cfg: Config, t: bytes, p: nat, q: nat, log: seq<Event>, count: nat)
    requires p < |t| && t[p] == COMMA && Blank(cfg, t, p, log) == Fine(p, log)
    requires q <= |t| && Blank(cfg, t, p + 1, log) == Fine(q, log) && Peek(t, q) != RIGHT_BRACKET
    ensures AfterBlank(cfg, t, p, log, count) == Descent.Elements(cfg, t, q, log, count)
  {
  }

  lemma ArrayEnds(cfg: Config, f: Format, count: nat, depth: nat, t: bytes, p: nat, log: seq<Event>)
    requires AcceptsAll(cfg) && ValidFormat(f) && depth > 0 && At(t, p, ArrayEndGap(f, depth) + [RIGHT_BRACKET])
    ensures AfterBlank(cfg, t, p, log, count) == Fine(p + |ArrayEndGap(f, depth)| + 1, log + [EndArray(count)])
  {
    var gap := ArrayEndGap(f, depth);
    ArrayEndGapIsSpace(f, depth);
    SkipGap(cfg, t, p, gap, [RIGHT_BRACKET], log);
    AtPeek(t, p + |gap|, [RIGHT_BRACKET], 0);
  }

  lemma {:induction false} ReadAfterElement(
    cfg: Config, st: Style, elements: seq<Value>, i: nat, depth: nat, t: bytes, p: nat, log: seq<Event>)
    requires AcceptsAll(cfg) && ValidFormat(st.format) && GoodElements(st, elements) && 0 < i <= |elements| && depth > 0
    requires At(t, p, PrintElements(st, elements, i, depth))
    ensures AfterBlank(cfg, t, p, log, i) == Fine(p + |PrintElements(st, elements, i, depth)|,
      log + GenerateElements(elements, i, true) + [EndArray(|elements|)])
    decreases elements, 4, |elements| - i, 1
  {
    if i == |elements| {
      ArrayEnds(cfg, st.format, i, depth, t, p, log);
      assert log + [] == log;
    } else {
      ElementText(st, elements, i, depth);
      AtPeek(t, p, PrintElements(st, elements, i, depth), 0);
      var q := SkipElementGap(cfg, st, elements, i, depth, t, p + 1, log);
      NoGap(cfg, t, p, PrintElements(st, elements, i, depth), log);
      ElementComma(cfg, t, p, q, log, i);
      ReadElements(cfg, st, elements, i, depth, t, q, log);
    }
  }

  // ---------------------------------------------------------------- Objects

  ghost predicate GoodMembers(st: Style, members: seq<Member>) {
    && |members| <= MAX_UINT32
    && (forall k | 0 <= k < |members| :: WellFormed(members[k].value))
    && (forall k | 0 <= k < |members| :: Writable(st.target, members[k].name))
    && (forall k | 0 <= k < |members| :: Printable(st.target, members[k].value))
  }

  lemma ObjectStart(cfg: Config, t: bytes, p: nat, log: seq<Event>, q: nat)
    requires AcceptsAll(cfg) && p < |t| && t[p] == LEFT_CURLY
    requires Blank(cfg, t, p + 1, log + [StartObject]) == Fine(q, log + [StartObject]) && q <= |t|
    ensures Descent.Value(cfg, t, p, log) ==
      if Peek(t, q) == RIGHT_CURLY then Fine(q + 1, log + [StartObject] + [EndObject(0)])
      else Descent.Members(cfg, t, q, log + [StartObject], 0)
  {
    assert Descent.Value(cfg, t, p, log) == Descent.Object(cfg, t, p, log);
  }

  lemma ReadEmptyObject(cfg: Config, t: bytes, p: nat, log: seq<Event>)
    requires AcceptsAll(cfg) && p < |t| && t[p] == LEFT_CURLY && At(t, p + 1, [RIGHT_CURLY])
    ensures Descent.Value(cfg, t, p, log) == Fine(p + 2, log + ([StartObject] + [] + [EndObject(0)]))
  {
    var log' := log + [StartObject];
    AtPeek(t, p + 1, [RIGHT_CURLY], 0);
    NoGap(cfg, t, p + 1, [RIGHT_CURLY], log');
    ObjectStart(cfg, t, p, log, p + 1);
    LogBrackets(log, [StartObject], [], [EndObject(0)]);
    assert log' + [] == log';
  }

  lemma {:induction false} ReadObject(
    cfg: Config, st: Style, members: seq<Member>, depth: nat, t: bytes, p: nat, log: seq<Event>)
    requires AcceptsAll(cfg) && ValidFormat(st.format) && GoodMembers(st, members) && depth > 0
    requires At(t, p, [LEFT_CURLY] + PrintMembers(st, members, 0, depth))
    ensures Descent.Value(cfg, t, p, log) == Fine(p + 1 + |PrintMembers(st, members, 0, depth)|,
      log + ([StartObject] + GenerateMembers(members, 0, true) + [EndObject(|members|)]))
    decreases members, 5
  {
    var text := PrintMembers(st, members, 0, depth);
    var log' := log + [StartObject];
    AtPeek(t, p, [LEFT_CURLY] + text, 0);
    AtSplit(t, p, [LEFT_CURLY], text);
    if members == [] {
      assert text == [RIGHT_CURLY];
      ReadEmptyObject(cfg, t, p, log);
    } else {
      var q := SkipMemberGap(cfg, st, members, 0, depth, t, p + 1, log');
      ObjectStart(cfg, t, p, log, q);
      ReadMembers(cfg, st, members, 0, depth, t, q, log');
      LogBrackets(log, [StartObject], GenerateMembers(members, 0, true), [EndObject(|members|)]);
    }
  }

  /** What stands from the colon of the `i`-th member on. */
  ghost function FromColon(st: Style, members: seq<Member>, i: nat, depth: nat): bytes
    requires i < |members| && depth > 0 && GoodMembers(st, members)
  {
    [COLON] + (ColonGap(st.format) + FromMemberValue(st, members, i, depth))
  }

  ghost function FromMemberValue(st: Style, members: seq<Member>, i: nat, depth: nat): bytes
    requires i < |members| && depth > 0 && GoodMembers(st, members)
  {
    Print(st, members[i].value, depth) + PrintMembers(st, members, i + 1, depth)
  }

  /** What stands from the `i`-th member's name on. */
  ghost function FromName(st: Style, members: seq<Member>, i: nat, depth: nat): bytes
    requires i < |members| && depth > 0 && GoodMembers(st, members)
  {
    Quoted(st.target, members[i].name) + FromColon(st, members, i, depth)
  }

  lemma MemberConcat(a: bytes, b: bytes, c: bytes, d: bytes, e: bytes, f: bytes, g: bytes)
    ensures (a + b + c + d + e + f) + g == a + (b + (c + (d + (e + (f + g)))))
  {
  }

  lemma MemberText(st: Style, members: seq<Member>, i: nat, depth: nat)
    requires i < |members| && depth > 0 && GoodMembers(st, members)
    ensures PrintMembers(st, members, i, depth)
      == Separator(i > 0) + (Newline(st.format, depth) + FromName(st, members, i, depth))
    ensures FromName(st, members, i, depth) != [] && FromName(st, members, i, depth)[0] == QUOTE
  {
    assert PrintMembers(st, members, i, depth)
      == PrintMember(st, members, i, depth) + PrintMembers(st, members, i + 1, depth);
    MemberConcat(Separator(i > 0), Newline(st.format, depth), Quoted(st.target, members[i].name), [COLON],
      ColonGap(st.format), Print(st, members[i].value, depth), PrintMembers(st, members, i + 1, depth));
  }

  /** The white space before a member, after its comma if there is one. */
  lemma SkipMemberGap(
    cfg: Config, st: Style, members: seq<Member>, i: nat, depth: nat, t: bytes, p: nat, log: seq<Event>)
    returns (q: nat)
    requires ValidFormat(st.format) && GoodMembers(st, members) && i < |members| && depth > 0
    requires p <= |t|
    requires if i == 0 then At(t, p, PrintMembers(st, members, 0, depth))
      else p > 0 && At(t, p - 1, PrintMembers(st, members, i, depth))
    ensures q <= |t| && Blank(cfg, t, p, log) == Fine(q, log) && At(t, q, FromName(st, members, i, depth))
    ensures Peek(t, q) == QUOTE
    ensures i > 0 ==> Peek(t, p - 1) == COMMA
    ensures q + |FromName(st, members, i, depth)|
      == (if i == 0 then p else p - 1) + |PrintMembers(st, members, i, depth)|
  {
    MemberText(st, members, i, depth);
    var gap, from := Newline(st.format, depth), FromName(st, members, i, depth);
    NewlineIsSpace(st.format, depth);
    if i > 0 {
      AtPeek(t, p - 1, [COMMA] + (gap + from), 0);
      AtSplit(t, p - 1, [COMMA], gap + from);
    } else {
      assert [] + (gap + from) == gap + from;
    }
    SkipGap(cfg, t, p, gap, from, log);
    q := p + |gap|;
    AtPeek(t, q, from, 0);
  }

  lemma MembersThen(cfg: Config, t: bytes, p: nat, log: seq<Event>, count: nat, name: Outcome)
    requires p < |t| && t[p] == QUOTE && Descent.Quote(cfg, t, p, true, log) == name && name.Fine?
    ensures Descent.Members(cfg, t, p, log, count) == Descent.AfterName(cfg, t, name.pos, name.log, count)
  {
  }

  lemma {:induction false} ReadMembers(
    cfg: Config, st: Style, members: seq<Member>, i: nat, depth: nat, t: bytes, p: nat, log: seq<Event>)
    requires AcceptsAll(cfg) && ValidFormat(st.format) && GoodMembers(st, members) && i < |members| && depth > 0
    requires At(t, p, FromName(st, members, i, depth))
    ensures Descent.Members(cfg, t, p, log, i) == Fine(p + |FromName(st, members, i, depth)|,
      log + GenerateMembers(members, i, true) + [EndObject(|members|)])
    decreases members, 4, |members| - i, 3
  {
    var name := Quoted(st.target, members[i].name);
    AtSplit(t, p, name, FromColon(st, members, i, depth));
    ReadQuote(cfg, st.target, t, p, members[i].name, true, log);
    var log' := log + [Key(members[i].name)];
    MembersThen(cfg, t, p, log, i, Fine(p + |name|, log'));
    ReadColon(cfg, st, members, i, depth, t, p + |name|, log');
    LogConcat(log, [Key(members[i].name)], Generate(members[i].value, true) + GenerateMembers(members, i + 1, true));
    LogConcat([Key(members[i].name)], Generate(members[i].value, true), GenerateMembers(members, i + 1, true));
  }

  lemma AfterNameThen(cfg: Config, t: bytes, p: nat, log: seq<Event>, count: nat, q: nat)
    requires p < |t| && t[p] == COLON && Blank(cfg, t, p, log) == Fine(p, log)
    requires Blank(cfg, t, p + 1, log) == Fine(q, log)
    ensures q <= |t| && Descent.AfterName(cfg, t, p, log, count) == Descent.MemberTail(cfg, t, q, log, count)
  {
    assert Descent.AtColon(cfg, t, p, log, count) == Descent.MemberTail(cfg, t, q, log, count);
  }

  lemma {:induction false} ReadColon(
    cfg: Config, st: Style, members: seq<Member>, i: nat, depth: nat, t: bytes, p: nat, log: seq<Event>)
    requires AcceptsAll(cfg) && ValidFormat(st.format) && GoodMembers(st, members) && i < |members| && depth > 0
    requires At(t, p, FromColon(st, members, i, depth))
    ensures Descent.AfterName(cfg, t, p, log, i) == Fine(p + |FromColon(st, members, i, depth)|,
      log + (Generate(members[i].value, true) + GenerateMembers(members, i + 1, true)) + [EndObject(|members|)])
    decreases members, 4, |members| - i, 2
  {
    var gap, from := ColonGap(st.format), FromMemberValue(st, members, i, depth);
    NoGap(cfg, t, p, FromColon(st, members, i, depth), log);
    AtPeek(t, p, FromColon(st, members, i, depth), 0);
    AtSplit(t, p, [COLON], gap + from);
    PrintHead(st, members[i].value, depth);
    SkipGap(cfg, t, p + 1, gap, from, log);
    var q := p + 1 + |gap|;
    AfterNameThen(cfg, t, p, log, i, q);
    ReadMemberTail(cfg, st, members, i, depth, t, q, log);
  }

  ghost function AfterMemberBlank(cfg: Config, t: bytes, p: nat, log: seq<Event>, count: nat): Outcome
    requires p <= |t|
  {
    var after := Blank(cfg, t, p, log);
    if after.Halt? then after else Descent.AfterMember(cfg, t, after.pos, after.log, count)
  }

  lemma MemberTailThen(cfg: Config, t: bytes, p: nat, log: seq<Event>, count: nat, value: Outcome)
    requires p <= |t| && Descent.Value(cfg, t, p, log) == value && value.Fine?
    ensures Descent.MemberTail(cfg, t, p, log, count) == AfterMemberBlank(cfg, t, value.pos, value.log, Next32(count))
  {
  }

  lemma {:induction false} ReadMemberTail(
    cfg: Config, st: Style, members: seq<Member>, i: nat, depth: nat, t: bytes, p: nat, log: seq<Event>)
    requires AcceptsAll(cfg) && ValidFormat(st.format) && GoodMembers(st, members) && i < |members| && depth > 0
    requires At(t, p, FromMemberValue(st, members, i, depth))
    ensures Descent.MemberTail(cfg, t, p, log, i) == Fine(p + |FromMemberValue(st, members, i, depth)|,
      log + (Generate(members[i].value, true) + GenerateMembers(members, i + 1, true)) + [EndObject(|members|)])
    decreases members, 4, |members| - i, 1
  {
    var q, log' := ReadOwnMember(cfg, st, members, i, depth, t, p, log);
    ReadAfterMember(cfg, st, members, i + 1, depth, t, q, log');
    LogConcat(log, Generate(members[i].value, true), GenerateMembers(members, i + 1, true));
  }

  /** The member's value is read up to `q`; what follows it is left. */
  lemma {:induction false} ReadOwnMember(
    cfg: Config, st: Style, members: seq<Member>, i: nat, depth: nat, t: bytes, p: nat, log: seq<Event>)
    returns (q: nat, log': seq<Event>)
    requires AcceptsAll(cfg) && ValidFormat(st.format) && GoodMembers(st, members) && i < |members| && depth > 0
    requires At(t, p, FromMemberValue(st, members, i, depth))
    ensures q == p + |Print(st, members[i].value, depth)| <= |t| && log' == log + Generate(members[i].value, true)
    ensures At(t, q, PrintMembers(st, members, i + 1, depth))
    ensures Descent.MemberTail(cfg, t, p, log, i) == AfterMemberBlank(cfg, t, q, log', i + 1)
    decreases members, 3
  {
    var own, rest := Print(st, members[i].value, depth), PrintMembers(st, members, i + 1, depth);
    MembersHead(st, members, i + 1, depth);
    SplitPeek(t, p, own, rest);
    ReadValue(cfg, st, members[i].value, depth, t, p, log);
    q, log' := p + |own|, log + Generate(members[i].value, true);
    MemberTailThen(cfg, t, p, log, i, Fine(q, log'));
  }

  lemma SplitPeek(t: bytes, p: nat, own: bytes, rest: bytes)
    requires At(t, p, own + rest) && rest != []
    ensures p + |own| < |t| && At(t, p, own) && At(t, p + |own|, rest) && Peek(t, p + |own|) == rest[0]
  {
    AtSplit(t, p, own, rest);
    AtPeek(t, p + |own|, rest, 0);
  }

  lemma MemberComma(cfg: Config, t: bytes, p: nat, q: nat, log: seq<Event>, count: nat)
    requires p < |t| && t[p] == COMMA && Blank(cfg, t, p, log) == Fine(p, log)
    requires q <= |t| && Blank(cfg, t, p + 1, log) == Fine(q, log) && Peek(t, q) != RIGHT_CURLY
    ensures AfterMemberBlank(cfg, t, p, log, count) == Descent.Members(cfg, t, q, log, count)
  {
  }

  lemma ObjectEnds(cfg: Config, f: Format, count: nat, depth: nat, t: bytes, p: nat, log: seq<Event>)
    requires AcceptsAll(cfg) && ValidFormat(f) && depth > 0 && At(t, p, Newline(f, depth - 1) + [RIGHT_CURLY])
    ensures AfterMemberBlank(cfg, t, p, log, count)
      == Fine(p + |Newline(f, depth - 1)| + 1, log + [EndObject(count)])
  {
    var gap := Newline(f, depth - 1);
    NewlineIsSpace(f, depth - 1);
    SkipGap(cfg, t, p, gap, [RIGHT_CURLY], log);
    AtPeek(t, p + |gap|, [RIGHT_CURLY], 0);
  }

  lemma {:induction false} ReadAfterMember(
    cfg: Config, st: Style, members: seq<Member>, i: nat, depth: nat, t: bytes, p: nat, log: seq<Event>)
    requires AcceptsAll(cfg) && ValidFormat(st.format) && GoodMembers(st, members) && 0 < i <= |members| && depth > 0
    requires At(t, p, PrintMembers(st, members, i, depth))
    ensures AfterMemberBlank(cfg, t, p, log, i) == Fine(p + |PrintMembers(st, members, i, depth)|,
      log + GenerateMembers(members, i, true) + [EndObject(|members|)])
    decreases members, 4, |members| - i, 4
  {
    if i == |members| {
      ObjectEnds(cfg, st.format, i, depth, t, p, log);
      assert log + [] == log;
    } else {
      MemberText(st, members, i, depth);
      AtPeek(t, p, PrintMembers(st, members, i, depth), 0);
      var q := SkipMemberGap(cfg, st, members, i, depth, t, p + 1, log);
      NoGap(cfg, t, p, PrintMembers(st, members, i, depth), log);
      MemberComma(cfg, t, p, q, log, i);
      ReadMembers(cfg, st, members, i, depth, t, q, log);
    }
  }

  // ---------------------------------------------------------------- Whole texts

  lemma NothingAfter(cfg: Config, t: bytes, log: seq<Event>)
    ensures Blank(cfg, t, |t|, log) == Fine(|t|, log)
    ensures Descent.Root(cfg, t, |t|, log) == Fine(|t|, log)
  {
  }

  /** The value that begins a text and ends with it. */
  lemma WholeText(cfg: Config, t: bytes, events: seq<Event>)
    requires Blank(cfg, t, 0, []) == Fine(0, []) && Peek(t, 0) != 0
    requires Descent.Value(cfg, t, 0, []) == Fine(|t|, events)
    ensures Descent.Parse(cfg, t) == Fine(|t|, events)
  {
    NothingAfter(cfg, t, events);
  }

  /** Parsing a printed value, by itself, gives its events and consumes the text. */
  lemma ReadText(cfg: Config, st: Style, v: Value)
    requires AcceptsAll(cfg) && ValidFormat(st.format) && WellFormed(v) && Printable(st.target, v)
    ensures Descent.Parse(cfg, Print(st, v, 0)) == Fine(|Print(st, v, 0)|, Generate(v, true))
  {
    var t := Print(st, v, 0);
    AtMiddle([], t, []);
    assert [] + t + [] == t;
    PrintHead(st, v, 0);
    NoGap(cfg, t, 0, t, []);
    AtPeek(t, 0, t, 0);
    ReadValue(cfg, st, v, 0, t, 0, []);
    assert [] + Generate(v, true) == Generate(v, true);
    WholeText(cfg, t, Generate(v, true));
  }
}
