/**
 Both parsers accept exactly the texts of the grammar, and tell a handler exactly the events of the text's tree.
 */
module GrammarProof {
  import opened Bytes
  import opened Sax
  import opened Numbers
  import opened Grammar
  import opened GrammarLeaves
  import opened Descent
  import Pushdown
  import ParserEquivalence

  // ---------------------------------------------------------------- Events handed over

  /** A part was parsed up to `pos`, and the handler accepted its events one by one. */
  ghost predicate Parsed(cfg: Config, log: seq<Event>, o: Outcome, pos: nat, events: seq<Event>) {
    o == Fine(pos, log + events) && Accepts(cfg, log, events)
  }

  lemma AcceptsBoth(cfg: Config, log: seq<Event>, a: seq<Event>, b: seq<Event>)
    ensures Accepts(cfg, log, a + b) <==> Accepts(cfg, log, a) && Accepts(cfg, log + a, b)
  {
    forall k | 0 < k <= |a|
      ensures (a + b)[..k] == a[..k]
    {
    }
    forall k | 0 < k <= |b|
      ensures log + (a + b)[..|a| + k] == log + a + b[..k]
    {
    }
    if Accepts(cfg, log, a + b) {
      AcceptsFirst(cfg, log, a, b);
      AcceptsSecond(cfg, log, a, b);
    }
    if Accepts(cfg, log, a) && Accepts(cfg, log + a, b) {
      forall k | 0 < k <= |a + b|
        ensures cfg.accepts(log + (a + b)[..k])
      {
        if k > |a| {
          assert log + (a + b)[..|a| + (k - |a|)] == log + a + b[..k - |a|];
        }
      }
    }
  }

  lemma AcceptsFirst(cfg: Config, log: seq<Event>, a: seq<Event>, b: seq<Event>)
    requires Accepts(cfg, log, a + b)
    ensures Accepts(cfg, log, a)
  {
    forall k | 0 < k <= |a|
      ensures cfg.accepts(log + a[..k])
    {
      assert (a + b)[..k] == a[..k];
    }
  }

  lemma AcceptsSecond(cfg: Config, log: seq<Event>, a: seq<Event>, b: seq<Event>)
    requires Accepts(cfg, log, a + b)
    ensures Accepts(cfg, log + a, b)
  {
    forall k | 0 < k <= |b|
      ensures cfg.accepts(log + a + b[..k])
    {
      assert log + (a + b)[..|a| + k] == log + a + b[..k];
    }
  }

  lemma AcceptsOne(cfg: Config, log: seq<Event>, e: Event)
    ensures Accepts(cfg, log, [e]) <==> cfg.accepts(log + [e])
  {
    assert [e][..1] == [e];
  }

  /** One event handed over. */
  lemma Told(cfg: Config, log: seq<Event>, e: Event, pos: nat, offset: nat)
    ensures cfg.accepts(log + [e]) <==> Parsed(cfg, log, Emit(cfg, log, e, pos, offset), pos, [e])
    ensures Emit(cfg, log, e, pos, offset).Fine? <==> cfg.accepts(log + [e])
    ensures Accepts(cfg, log, [e]) <==> cfg.accepts(log + [e])
  {
    AcceptsOne(cfg, log, e);
  }

  /** One part after the other. */
  lemma ParsedBoth(cfg: Config, log: seq<Event>, a: seq<Event>, o: Outcome, pos: nat, b: seq<Event>)
    requires Accepts(cfg, log, a)
    ensures Parsed(cfg, log + a, o, pos, b) <==> Parsed(cfg, log, o, pos, a + b)
  {
    AcceptsBoth(cfg, log, a, b);
    assert log + a + b == log + (a + b);
  }

  // ---------------------------------------------------------------- Where values start

  /** A value starts with a mark of its own, which begins no gap and closes or separates nothing. */
  lemma ValueStarts(cfg: Config, t: bytes, tree: Tree)
    requires TreeAt(cfg, t, tree)
    ensures tree.at < |t| && !GapStarts(cfg, t[tree.at])
    ensures t[tree.at] != 0 && t[tree.at] != 0x5D && t[tree.at] != 0x7D && t[tree.at] != 0x2C
  {
    match tree
    case NullTree(p) => assert t[p..p + 4][0] == 0x6E;
    case TrueTree(p) => assert t[p..p + 4][0] == 0x74;
    case FalseTree(p) => assert t[p..p + 5][0] == 0x66;
    case NumberTree(p, l, _) => NumberStarts(t, p, l);
    case StringTree(_, _) =>
    case ArrayTree(p, items, to) => assert ArrayAt(cfg, t, p, items, to);
    case ObjectTree(p, entries, to) => assert ObjectAt(cfg, t, p, entries, to);
  }

  lemma NumberStarts(t: bytes, p: nat, l: Literal)
    requires p < |t| && NumberAt(t, p, l)
    ensures t[p] == 0x2D || 0x30 <= t[p] <= 0x39
  {
  }

  // ---------------------------------------------------------------- Leaves

  predicate IsLeaf(tree: Tree) {
    !tree.ArrayTree? && !tree.ObjectTree?
  }

  ghost function LeafEvent(tree: Tree): Event
    requires IsLeaf(tree)
  {
    Events(tree)[0]
  }

  lemma {:induction false} WordMatched(t: bytes, p: nat, word: bytes)
    requires p <= |t| && 0 !in word
    ensures Matched(t, p, word) == |word| <==> IsWord(t, p, word)
    decreases |word|
  {
    if word != [] && Peek(t, p) == word[0] {
      assert word == [word[0]] + word[1..];
      WordMatched(t, p + 1, word[1..]);
      if p + |word| <= |t| {
        assert t[p..p + |word|] == [t[p]] + t[p + 1..p + |word|];
      }
    }
  }

  lemma WordIs(cfg: Config, t: bytes, p: nat, word: bytes, e: Event, log: seq<Event>)
    requires p <= |t| && 0 !in word && word != [] && (e.Null? || e.Bool?)
    ensures IsWord(t, p, word) ==>
      t[p] == word[0] && Word(cfg, t, p, word, e, log) == Emit(cfg, log, e, p + |word|, p + |word|)
    ensures Word(cfg, t, p, word, e, log).Fine? ==> IsWord(t, p, word)
  {
    WordMatched(t, p, word);
    if IsWord(t, p, word) {
      assert t[p..p + |word|][0] == word[0];
    }
  }

  lemma ValueIsWord(cfg: Config, t: bytes, p: nat, log: seq<Event>)
    requires p < |t|
    ensures t[p] == 0x6E ==> Value(cfg, t, p, log) == Word(cfg, t, p, NULL_WORD, Null, log)
    ensures t[p] == 0x74 ==> Value(cfg, t, p, log) == Word(cfg, t, p, TRUE_WORD, Bool(true), log)
    ensures t[p] == 0x66 ==> Value(cfg, t, p, log) == Word(cfg, t, p, FALSE_WORD, Bool(false), log)
  {
    if t[p] != LEFT_CURLY && t[p] != LEFT_BRACKET {
      ParserEquivalence.ValueIsScalar(cfg, t, p, log);
    }
  }

  /** The parser hands over the event of the leaf, or reports its refusal at an offset. */
  lemma LeafRead(cfg: Config, t: bytes, tree: Tree, log: seq<Event>) returns (offset: nat)
    requires IsLeaf(tree) && TreeAt(cfg, t, tree)
    ensures tree.at < |t| && Value(cfg, t, tree.at, log) == Emit(cfg, log, LeafEvent(tree), To(tree), offset)
  {
    offset := if tree.NumberTree? then tree.at else To(tree);
    if tree.NumberTree? {
      NumberStarts(t, tree.at, tree.literal);
      NumberRead(cfg, t, tree.at, tree.literal, log);
      ScalarIsNumber(cfg, t, tree.at, log);
    } else if tree.StringTree? {
      StringRead(t, tree.at, tree.chars);
      QuoteIs(cfg, t, tree.at, false, Denoted(tree.chars), tree.at + Length(tree.chars) + 2, log);
      ParserEquivalence.ValueIsScalar(cfg, t, tree.at, log);
    } else {
      WordRead(cfg, t, tree, log);
    }
  }

  lemma WordRead(cfg: Config, t: bytes, tree: Tree, log: seq<Event>)
    requires (tree.NullTree? || tree.TrueTree? || tree.FalseTree?) && TreeAt(cfg, t, tree)
    ensures tree.at < |t| && Value(cfg, t, tree.at, log) == Emit(cfg, log, LeafEvent(tree), To(tree), To(tree))
  {
    match tree
    case NullTree(p) => NullRead(cfg, t, p, log);
    case TrueTree(p) => TrueRead(cfg, t, p, log);
    case FalseTree(p) => FalseRead(cfg, t, p, log);
  }

  lemma NullRead(cfg: Config, t: bytes, p: nat, log: seq<Event>)
    requires IsWord(t, p, [0x6E, 0x75, 0x6C, 0x6C])
    ensures p < |t| && Value(cfg, t, p, log) == Emit(cfg, log, Null, p + 4, p + 4)
  {
    WordIs(cfg, t, p, NULL_WORD, Null, log);
    ValueIsWord(cfg, t, p, log);
  }

  lemma TrueRead(cfg: Config, t: bytes, p: nat, log: seq<Event>)
    requires IsWord(t, p, [0x74, 0x72, 0x75, 0x65])
    ensures p < |t| && Value(cfg, t, p, log) == Emit(cfg, log, Bool(true), p + 4, p + 4)
  {
    WordIs(cfg, t, p, TRUE_WORD, Bool(true), log);
    ValueIsWord(cfg, t, p, log);
  }

  lemma FalseRead(cfg: Config, t: bytes, p: nat, log: seq<Event>)
    requires IsWord(t, p, [0x66, 0x61, 0x6C, 0x73, 0x65])
    ensures p < |t| && Value(cfg, t, p, log) == Emit(cfg, log, Bool(false), p + 5, p + 5)
  {
    WordIs(cfg, t, p, FALSE_WORD, Bool(false), log);
    ValueIsWord(cfg, t, p, log);
  }

  lemma ScalarIsNumber(cfg: Config, t: bytes, p: nat, log: seq<Event>)
    requires p < |t| && (t[p] == 0x2D || 0x30 <= t[p] <= 0x39)
    ensures Value(cfg, t, p, log) == Number(cfg, t, p, log)
  {
    ParserEquivalence.ValueIsScalar(cfg, t, p, log);
  }

  lemma LeafFound(cfg: Config, t: bytes, p: nat, log: seq<Event>) returns (tree: Tree)
    requires p <= |t| && Value(cfg, t, p, log).Fine? && Peek(t, p) != LEFT_CURLY && Peek(t, p) != LEFT_BRACKET
    ensures IsLeaf(tree) && tree.at == p && TreeAt(cfg, t, tree)
  {
    ParserEquivalence.ValueIsScalar(cfg, t, p, log);
    var c := Peek(t, p);
    if c == LETTER_N || c == LETTER_T || c == LETTER_F {
      tree := WordFound(cfg, t, p, log);
    } else if c == QUOTE {
      var chars := StringFound(cfg, t, p, false, log);
      tree := StringTree(p, chars);
    } else {
      tree := NumberFound(cfg, t, p, log);
    }
  }

  lemma WordFound(cfg: Config, t: bytes, p: nat, log: seq<Event>) returns (tree: Tree)
    requires p < |t| && Value(cfg, t, p, log).Fine? && (t[p] == LETTER_N || t[p] == LETTER_T || t[p] == LETTER_F)
    ensures IsLeaf(tree) && tree.at == p && TreeAt(cfg, t, tree)
  {
    ValueIsWord(cfg, t, p, log);
    WordIs(cfg, t, p, NULL_WORD, Null, log);
    WordIs(cfg, t, p, TRUE_WORD, Bool(true), log);
    WordIs(cfg, t, p, FALSE_WORD, Bool(false), log);
    tree := if t[p] == LETTER_N then NullTree(p) else if t[p] == LETTER_T then TrueTree(p) else FalseTree(p);
  }

  lemma NumberFound(cfg: Config, t: bytes, p: nat, log: seq<Event>) returns (tree: Tree)
    requires p <= |t| && Number(cfg, t, p, log).Fine?
    ensures tree.NumberTree? && tree.at == p && TreeAt(cfg, t, tree)
  {
    var l := ScanNumber(t, p).literal;
    ScannedNumber(t, p, l);
    NumberRead(cfg, t, p, l, log);
    tree := NumberTree(p, l, NumberEvent(t, p, l));
  }

  // ---------------------------------------------------------------- One step of the parser

  /** What follows an opening bracket that the handler has accepted. */
  function InsideArray(cfg: Config, t: bytes, p: nat, log: seq<Event>): Outcome
    requires p < |t|
  {
    var inner := Blank(cfg, t, p + 1, log);
    if inner.Halt? then inner
    else if Peek(t, inner.pos) == 0x5D then Emit(cfg, log, EndArray(0), inner.pos + 1, inner.pos + 1)
    else Elements(cfg, t, inner.pos, log, 0)
  }

  function InsideObject(cfg: Config, t: bytes, p: nat, log: seq<Event>): Outcome
    requires p < |t|
  {
    var inner := Blank(cfg, t, p + 1, log);
    if inner.Halt? then inner
    else if Peek(t, inner.pos) == 0x7D then Emit(cfg, log, EndObject(0), inner.pos + 1, inner.pos + 1)
    else Members(cfg, t, inner.pos, log, 0)
  }

  lemma ArrayBegins(cfg: Config, t: bytes, p: nat, log: seq<Event>)
    requires p < |t| && t[p] == 0x5B
    ensures cfg.accepts(log + [StartArray]) ==> Value(cfg, t, p, log) == InsideArray(cfg, t, p, log + [StartArray])
    ensures Value(cfg, t, p, log).Fine? ==> cfg.accepts(log + [StartArray])
  {
    ParserEquivalence.ValueIsContainer(cfg, t, p, log);
    ParserEquivalence.ArrayIs(cfg, t, p, log);
  }

  lemma ObjectBegins(cfg: Config, t: bytes, p: nat, log: seq<Event>)
    requires p < |t| && t[p] == 0x7B
    ensures cfg.accepts(log + [StartObject]) ==> Value(cfg, t, p, log) == InsideObject(cfg, t, p, log + [StartObject])
    ensures Value(cfg, t, p, log).Fine? ==> cfg.accepts(log + [StartObject])
  {
    ParserEquivalence.ValueIsContainer(cfg, t, p, log);
    ParserEquivalence.ObjectIs(cfg, t, p, log);
  }

  lemma ElementsBegin(cfg: Config, t: bytes, p: nat, log: seq<Event>, next: nat)
    requires p < |t| && Blank(cfg, t, p + 1, log) == Fine(next, log)
    ensures Peek(t, next) != 0x5D ==> InsideArray(cfg, t, p, log) == Elements(cfg, t, next, log, 0)
    ensures Peek(t, next) == 0x5D ==> InsideArray(cfg, t, p, log) == Emit(cfg, log, EndArray(0), next + 1, next + 1)
  {
  }

  lemma MembersBegin(cfg: Config, t: bytes, p: nat, log: seq<Event>, next: nat)
    requires p < |t| && Blank(cfg, t, p + 1, log) == Fine(next, log)
    ensures Peek(t, next) != 0x7D ==> InsideObject(cfg, t, p, log) == Members(cfg, t, next, log, 0)
    ensures Peek(t, next) == 0x7D ==> InsideObject(cfg, t, p, log) == Emit(cfg, log, EndObject(0), next + 1, next + 1)
  {
  }

  lemma ElementBegins(cfg: Config, t: bytes, p: nat, log: seq<Event>, count: nat, to: nat, log1: seq<Event>, end: nat)
    requires p <= |t| && Value(cfg, t, p, log) == Fine(to, log1)
    requires to <= |t| && Blank(cfg, t, to, log1) == Fine(end, log1)
    ensures Elements(cfg, t, p, log, count) == AfterElement(cfg, t, end, log1, (count + 1) % 0x1_0000_0000)
  {
  }

  lemma MemberBegins(cfg: Config, t: bytes, p: nat, log: seq<Event>, count: nat, to: nat, log1: seq<Event>, end: nat)
    requires p <= |t| && Value(cfg, t, p, log) == Fine(to, log1)
    requires to <= |t| && Blank(cfg, t, to, log1) == Fine(end, log1)
    ensures MemberTail(cfg, t, p, log, count) == AfterMember(cfg, t, end, log1, (count + 1) % 0x1_0000_0000)
  {
  }

  /** After an element a bracket stands, or a comma with a bracket or the next element after it. */
  lemma AfterElementIs(cfg: Config, t: bytes, end: nat, log: seq<Event>, count: nat, next: nat)
    requires end < |t| && (t[end] == 0x2C ==> Blank(cfg, t, end + 1, log) == Fine(next, log))
    ensures t[end] == 0x5D ==>
      AfterElement(cfg, t, end, log, count) == Emit(cfg, log, EndArray(count), end + 1, end + 1)
    ensures t[end] == 0x2C && cfg.trailingCommas && Peek(t, next) == 0x5D ==>
      AfterElement(cfg, t, end, log, count) == Emit(cfg, log, EndArray(count), next + 1, next)
    ensures t[end] == 0x2C && !(cfg.trailingCommas && Peek(t, next) == 0x5D) ==>
      AfterElement(cfg, t, end, log, count) == Elements(cfg, t, next, log, count)
  {
  }

  lemma AfterMemberIs(cfg: Config, t: bytes, end: nat, log: seq<Event>, count: nat, next: nat)
    requires end < |t| && (t[end] == 0x2C ==> Blank(cfg, t, end + 1, log) == Fine(next, log))
    ensures t[end] == 0x7D ==>
      AfterMember(cfg, t, end, log, count) == Emit(cfg, log, EndObject(count), end + 1, end + 1)
    ensures t[end] == 0x2C && cfg.trailingCommas && Peek(t, next) == 0x7D ==>
      AfterMember(cfg, t, end, log, count) == Emit(cfg, log, EndObject(count), next + 1, next)
    ensures t[end] == 0x2C && !(cfg.trailingCommas && Peek(t, next) == 0x7D) ==>
      AfterMember(cfg, t, end, log, count) == Members(cfg, t, next, log, count)
  {
  }

  lemma NameBegins(
    cfg: Config, t: bytes, p: nat, log: seq<Event>, count: nat, nameEnd: nat, log1: seq<Event>, colon: nat, at: nat)
    requires p < |t| && t[p] == 0x22 && Quote(cfg, t, p, true, log) == Fine(nameEnd, log1)
    requires nameEnd <= |t| && Blank(cfg, t, nameEnd, log1) == Fine(colon, log1) && colon < |t| && t[colon] == 0x3A
    requires Blank(cfg, t, colon + 1, log1) == Fine(at, log1)
    ensures Members(cfg, t, p, log, count) == MemberTail(cfg, t, at, log1, count)
  {
    ParserEquivalence.MembersIs(cfg, t, p, log, count);
    ParserEquivalence.ColonIs(cfg, t, colon, log1, count, Fine(at, log1));
    assert AfterName(cfg, t, nameEnd, log1, count) == AtColon(cfg, t, colon, log1, count);
  }

  // ---------------------------------------------------------------- Trees are read

  lemma CountsOn(count: nat, n: nat)
    requires n > 0
    ensures ((count + 1) % 0x1_0000_0000 + (n - 1)) % 0x1_0000_0000 == (count + n) % 0x1_0000_0000
  {
  }

  /** A tree of the grammar is parsed from its place to its end with its events. */
  lemma {:induction false} TreeRead(cfg: Config, t: bytes, tree: Tree, log: seq<Event>)
    requires TreeAt(cfg, t, tree) && Accepts(cfg, log, Events(tree))
    ensures tree.at < |t| && Parsed(cfg, log, Value(cfg, t, tree.at, log), To(tree), Events(tree))
    decreases tree, 2
  {
    if tree.ArrayTree? {
      ArrayRead(cfg, t, tree, log);
    } else if tree.ObjectTree? {
      ObjectRead(cfg, t, tree, log);
    } else {
      var offset := LeafRead(cfg, t, tree, log);
      Told(cfg, log, LeafEvent(tree), To(tree), offset);
    }
  }

  lemma {:induction false} ArrayRead(cfg: Config, t: bytes, tree: Tree, log: seq<Event>)
    requires tree.ArrayTree? && TreeAt(cfg, t, tree) && Accepts(cfg, log, Events(tree))
    ensures tree.at < |t| && Parsed(cfg, log, Value(cfg, t, tree.at, log), tree.to, Events(tree))
    decreases tree, 1
  {
    var p, items := tree.at, tree.items;
    assert ArrayAt(cfg, t, p, items, tree.to);
    var inner := ItemsEvents(items) + [EndArray(|items| % 0x1_0000_0000)];
    assert Events(tree) == [StartArray] + inner;
    AcceptsBoth(cfg, log, [StartArray], inner);
    AcceptsOne(cfg, log, StartArray);
    ArrayBegins(cfg, t, p, log);
    InsideArrayRead(cfg, t, p, items, tree.to, log + [StartArray]);
    ParsedBoth(cfg, log, [StartArray], Value(cfg, t, p, log), tree.to, inner);
  }

  lemma {:induction false} InsideArrayRead(
    cfg: Config, t: bytes, p: nat, items: seq<Item>, to: nat, log: seq<Event>)
    requires ArrayAt(cfg, t, p, items, to)
    requires Accepts(cfg, log, ItemsEvents(items) + [EndArray(|items| % 0x1_0000_0000)])
    ensures p < |t|
    ensures Parsed(cfg, log, InsideArray(cfg, t, p, log), to, ItemsEvents(items) + [EndArray(|items| % 0x1_0000_0000)])
    decreases items, 3
  {
    if items == [] {
      GapSkipped(cfg, t, p + 1, to - 1, log);
      ElementsBegin(cfg, t, p, log, to - 1);
      Told(cfg, log, EndArray(0), to, to);
      assert ItemsEvents(items) + [EndArray(0)] == [EndArray(0)];
    } else {
      ItemStarts(cfg, t, p + 1, items[0], log);
      ElementsBegin(cfg, t, p, log, items[0].value.at);
      ItemsRead(cfg, t, p + 1, items, to - 1, false, log, 0);
    }
  }

  /** The gap before a value is skipped. */
  lemma ItemStarts(cfg: Config, t: bytes, p: nat, item: Item, log: seq<Event>)
    requires ItemAt(cfg, t, p, item)
    ensures p <= item.value.at < |t| && t[item.value.at] != 0x5D && Blank(cfg, t, p, log) == Fine(item.value.at, log)
  {
    ValueStarts(cfg, t, item.value);
    GapSkipped(cfg, t, p, item.value.at, log);
  }

  /** From the first value on, the items and the closing bracket at `q` are parsed. */
  lemma {:induction false} ItemsRead(
    cfg: Config, t: bytes, p: nat, items: seq<Item>, q: nat, comma: bool, log: seq<Event>, count: nat)
    requires p <= q < |t| && t[q] == 0x5D && items != [] && ItemsAt(cfg, t, p, items, q, comma)
    requires Accepts(cfg, log, ItemsEvents(items) + [EndArray((count + |items|) % 0x1_0000_0000)])
    ensures items[0].value.at < |t|
    ensures Parsed(cfg, log, Elements(cfg, t, items[0].value.at, log, count), q + 1,
              ItemsEvents(items) + [EndArray((count + |items|) % 0x1_0000_0000)])
    decreases items, 2
  {
    var item, last := items[0], EndArray((count + |items|) % 0x1_0000_0000);
    var own, rest := Events(item.value), ItemsEvents(items[1..]) + [last];
    assert ItemsEvents(items) + [last] == own + rest;
    AcceptsBoth(cfg, log, own, rest);
    ItemRead(cfg, t, p, item, q, log, count);
    AfterItemRead(cfg, t, items, q, log + own, count);
    ParsedBoth(cfg, log, own, Elements(cfg, t, item.value.at, log, count), q + 1, rest);
  }

  lemma {:induction false} ItemRead(
    cfg: Config, t: bytes, p: nat, item: Item, q: nat, log: seq<Event>, count: nat)
    requires ItemAt(cfg, t, p, item) && Accepts(cfg, log, Events(item.value))
    requires item.end <= q < |t| && (t[item.end] == 0x2C || t[item.end] == 0x5D)
    ensures item.value.at < |t|
    ensures Elements(cfg, t, item.value.at, log, count)
         == AfterElement(cfg, t, item.end, log + Events(item.value), (count + 1) % 0x1_0000_0000)
    decreases item, 2
  {
    var v := item.value;
    assert v < item;
    TreeRead(cfg, t, v, log);
    GapSkipped(cfg, t, To(v), item.end, log + Events(v));
    ElementBegins(cfg, t, v.at, log, count, To(v), log + Events(v), item.end);
  }

  lemma {:induction false} AfterItemRead(
    cfg: Config, t: bytes, items: seq<Item>, q: nat, log: seq<Event>, count: nat)
    requires items != [] && items[0].end <= q < |t| && t[q] == 0x5D && ItemsGoOn(cfg, t, items, q)
    requires Accepts(cfg, log, ItemsEvents(items[1..]) + [EndArray((count + |items|) % 0x1_0000_0000)])
    ensures Parsed(cfg, log, AfterElement(cfg, t, items[0].end, log, (count + 1) % 0x1_0000_0000), q + 1,
              ItemsEvents(items[1..]) + [EndArray((count + |items|) % 0x1_0000_0000)])
    decreases items, 1
  {
    var end, more, n := items[0].end, items[1..], (count + 1) % 0x1_0000_0000;
    CountsOn(count, |items|);
    if end == q {
      AfterElementIs(cfg, t, end, log, n, q);
      LastTold(cfg, log, ItemsEvents(more), EndArray(n), q + 1, q + 1);
    } else if more == [] {
      GapSkipped(cfg, t, end + 1, q, log);
      AfterElementIs(cfg, t, end, log, n, q);
      LastTold(cfg, log, ItemsEvents(more), EndArray(n), q + 1, q);
    } else {
      ItemStarts(cfg, t, end + 1, more[0], log);
      AfterElementIs(cfg, t, end, log, n, more[0].value.at);
      ItemsRead(cfg, t, end + 1, more, q, true, log, n);
    }
  }

  lemma LastTold(cfg: Config, log: seq<Event>, none: seq<Event>, e: Event, pos: nat, offset: nat)
    requires none == [] && Accepts(cfg, log, none + [e])
    ensures Parsed(cfg, log, Emit(cfg, log, e, pos, offset), pos, none + [e])
  {
    assert none + [e] == [e];
    Told(cfg, log, e, pos, offset);
  }

  lemma {:induction false} ObjectRead(cfg: Config, t: bytes, tree: Tree, log: seq<Event>)
    requires tree.ObjectTree? && TreeAt(cfg, t, tree) && Accepts(cfg, log, Events(tree))
    ensures tree.at < |t| && Parsed(cfg, log, Value(cfg, t, tree.at, log), tree.to, Events(tree))
    decreases tree, 1
  {
    var p, entries := tree.at, tree.entries;
    assert ObjectAt(cfg, t, p, entries, tree.to);
    var inner := EntriesEvents(entries) + [EndObject(|entries| % 0x1_0000_0000)];
    assert Events(tree) == [StartObject] + inner;
    AcceptsBoth(cfg, log, [StartObject], inner);
    AcceptsOne(cfg, log, StartObject);
    ObjectBegins(cfg, t, p, log);
    InsideObjectRead(cfg, t, p, entries, tree.to, log + [StartObject]);
    ParsedBoth(cfg, log, [StartObject], Value(cfg, t, p, log), tree.to, inner);
  }

  lemma {:induction false} InsideObjectRead(
    cfg: Config, t: bytes, p: nat, entries: seq<Entry>, to: nat, log: seq<Event>)
    requires ObjectAt(cfg, t, p, entries, to)
    requires Accepts(cfg, log, EntriesEvents(entries) + [EndObject(|entries| % 0x1_0000_0000)])
    ensures p < |t|
    ensures Parsed(cfg, log, InsideObject(cfg, t, p, log), to,
              EntriesEvents(entries) + [EndObject(|entries| % 0x1_0000_0000)])
    decreases entries, 3
  {
    if entries == [] {
      GapSkipped(cfg, t, p + 1, to - 1, log);
      MembersBegin(cfg, t, p, log, to - 1);
      Told(cfg, log, EndObject(0), to, to);
      assert EntriesEvents(entries) + [EndObject(0)] == [EndObject(0)];
    } else {
      NameStarts(cfg, t, p + 1, entries[0], log);
      MembersBegin(cfg, t, p, log, entries[0].name);
      EntriesRead(cfg, t, p + 1, entries, to - 1, false, log, 0);
    }
  }

  /** The gap before a name is skipped. */
  lemma NameStarts(cfg: Config, t: bytes, p: nat, e: Entry, log: seq<Event>)
    requires EntryAt(cfg, t, p, e)
    ensures p <= e.name < |t| && t[e.name] == 0x22 && Blank(cfg, t, p, log) == Fine(e.name, log)
  {
    assert NameAt(cfg, t, e);
    GapSkipped(cfg, t, p, e.name, log);
  }

  lemma {:induction false} EntriesRead(
    cfg: Config, t: bytes, p: nat, entries: seq<Entry>, q: nat, comma: bool, log: seq<Event>, count: nat)
    requires p <= q < |t| && t[q] == 0x7D && entries != [] && EntriesAt(cfg, t, p, entries, q, comma)
    requires Accepts(cfg, log, EntriesEvents(entries) + [EndObject((count + |entries|) % 0x1_0000_0000)])
    ensures entries[0].name <= |t|
    ensures Parsed(cfg, log, Members(cfg, t, entries[0].name, log, count), q + 1,
              EntriesEvents(entries) + [EndObject((count + |entries|) % 0x1_0000_0000)])
    decreases entries, 2
  {
    var e, last := entries[0], EndObject((count + |entries|) % 0x1_0000_0000);
    var own, rest := EntryEvents(e), EntriesEvents(entries[1..]) + [last];
    assert EntriesEvents(entries) + [last] == own + rest;
    AcceptsBoth(cfg, log, own, rest);
    EntryRead(cfg, t, p, e, q, log, count);
    AfterEntryRead(cfg, t, entries, q, log + own, count);
    ParsedBoth(cfg, log, own, Members(cfg, t, e.name, log, count), q + 1, rest);
  }

  lemma {:induction false} EntryRead(
    cfg: Config, t: bytes, p: nat, e: Entry, q: nat, log: seq<Event>, count: nat)
    requires EntryAt(cfg, t, p, e) && Accepts(cfg, log, EntryEvents(e))
    requires e.end <= q < |t| && (t[e.end] == 0x2C || t[e.end] == 0x7D)
    ensures e.name <= |t|
    ensures
      Members(cfg, t, e.name, log, count)
      == AfterMember(cfg, t, e.end, log + EntryEvents(e), (count + 1) % 0x1_0000_0000)
    decreases e, 2
  {
    var key, own := Key(Denoted(e.chars)), Events(e.value);
    assert NameAt(cfg, t, e);
    assert EntryEvents(e) == [key] + own;
    AcceptsBoth(cfg, log, [key], own);
    AcceptsOne(cfg, log, key);
    NameRead(cfg, t, e, log, count);
    MemberValueRead(cfg, t, e, log + [key], count);
    assert log + [key] + own == log + ([key] + own);
  }

  lemma {:induction false} MemberValueRead(cfg: Config, t: bytes, e: Entry, log: seq<Event>, count: nat)
    requires TreeAt(cfg, t, e.value) && Accepts(cfg, log, Events(e.value)) && e.value.at <= To(e.value) <= e.end < |t|
    requires GapAt(cfg, t, To(e.value), e.end) && (t[e.end] == 0x2C || t[e.end] == 0x7D)
    ensures MemberTail(cfg, t, e.value.at, log, count)
         == AfterMember(cfg, t, e.end, log + Events(e.value), (count + 1) % 0x1_0000_0000)
    decreases e, 1
  {
    var v := e.value;
    assert v < e;
    TreeRead(cfg, t, v, log);
    GapSkipped(cfg, t, To(v), e.end, log + Events(v));
    MemberBegins(cfg, t, v.at, log, count, To(v), log + Events(v), e.end);
  }

  /** The name of a member, its colon and the gaps around it. */
  lemma NameRead(cfg: Config, t: bytes, e: Entry, log: seq<Event>, count: nat)
    requires NameAt(cfg, t, e) && cfg.accepts(log + [Key(Denoted(e.chars))])
    ensures e.name < |t| && e.value.at < |t|
    ensures Members(cfg, t, e.name, log, count)
         == MemberTail(cfg, t, e.value.at, log + [Key(Denoted(e.chars))], count)
  {
    ValueStarts(cfg, t, e.value);
    NamePartsRead(cfg, t, e.name, e.chars, e.name + Length(e.chars) + 2, e.colon, e.value.at, log, count);
  }

  lemma NamePartsRead(
    cfg: Config, t: bytes, p: nat, chars: seq<Char>, nameEnd: nat, colon: nat, at: nat, log: seq<Event>, count: nat)
    requires StringAt(t, p, chars) && nameEnd == p + Length(chars) + 2 && cfg.accepts(log + [Key(Denoted(chars))])
    requires nameEnd <= colon < at < |t| && GapAt(cfg, t, nameEnd, colon) && t[colon] == 0x3A
    requires GapAt(cfg, t, colon + 1, at) && !GapStarts(cfg, t[at])
    ensures p < |t| && Members(cfg, t, p, log, count) == MemberTail(cfg, t, at, log + [Key(Denoted(chars))], count)
  {
    var log1 := KeyRead(cfg, t, p, chars, nameEnd, log);
    ColonRead(cfg, t, p, log, count, nameEnd, log1, colon, at);
  }

  lemma KeyRead(cfg: Config, t: bytes, p: nat, chars: seq<Char>, nameEnd: nat, log: seq<Event>)
    returns (log1: seq<Event>)
    requires StringAt(t, p, chars) && nameEnd == p + Length(chars) + 2 && cfg.accepts(log + [Key(Denoted(chars))])
    ensures p < |t| && t[p] == 0x22 && nameEnd <= |t|
    ensures log1 == log + [Key(Denoted(chars))] && Quote(cfg, t, p, true, log) == Fine(nameEnd, log1)
  {
    log1 := log + [Key(Denoted(chars))];
    StringRead(t, p, chars);
    QuoteIs(cfg, t, p, true, Denoted(chars), nameEnd, log);
  }

  lemma ColonRead(
    cfg: Config, t: bytes, p: nat, log: seq<Event>, count: nat, nameEnd: nat, log1: seq<Event>, colon: nat, at: nat)
    requires p < |t| && t[p] == 0x22 && Quote(cfg, t, p, true, log) == Fine(nameEnd, log1)
    requires nameEnd <= colon < at < |t| && GapAt(cfg, t, nameEnd, colon) && t[colon] == 0x3A
    requires GapAt(cfg, t, colon + 1, at) && !GapStarts(cfg, t[at])
    ensures Members(cfg, t, p, log, count) == MemberTail(cfg, t, at, log1, count)
  {
    NameGaps(cfg, t, log1, nameEnd, colon, at);
    NameBegins(cfg, t, p, log, count, nameEnd, log1, colon, at);
  }

  lemma NameGaps(cfg: Config, t: bytes, log: seq<Event>, nameEnd: nat, colon: nat, at: nat)
    requires nameEnd <= colon < at < |t| && GapAt(cfg, t, nameEnd, colon) && t[colon] == 0x3A
    requires GapAt(cfg, t, colon + 1, at) && !GapStarts(cfg, t[at])
    ensures Blank(cfg, t, nameEnd, log) == Fine(colon, log) && Blank(cfg, t, colon + 1, log) == Fine(at, log)
  {
    GapSkipped(cfg, t, nameEnd, colon, log);
    GapSkipped(cfg, t, colon + 1, at, log);
  }

  lemma {:induction false} AfterEntryRead(
    cfg: Config, t: bytes, entries: seq<Entry>, q: nat, log: seq<Event>, count: nat)
    requires entries != [] && entries[0].end <= q < |t| && t[q] == 0x7D && EntriesGoOn(cfg, t, entries, q)
    requires Accepts(cfg, log, EntriesEvents(entries[1..]) + [EndObject((count + |entries|) % 0x1_0000_0000)])
    ensures Parsed(cfg, log, AfterMember(cfg, t, entries[0].end, log, (count + 1) % 0x1_0000_0000), q + 1,
              EntriesEvents(entries[1..]) + [EndObject((count + |entries|) % 0x1_0000_0000)])
    decreases entries, 1
  {
    var end, more, n := entries[0].end, entries[1..], (count + 1) % 0x1_0000_0000;
    CountsOn(count, |entries|);
    if end == q {
      AfterMemberIs(cfg, t, end, log, n, q);
      LastTold(cfg, log, EntriesEvents(more), EndObject(n), q + 1, q + 1);
    } else if more == [] {
      GapSkipped(cfg, t, end + 1, q, log);
      AfterMemberIs(cfg, t, end, log, n, q);
      LastTold(cfg, log, EntriesEvents(more), EndObject(n), q + 1, q);
    } else {
      NameStarts(cfg, t, end + 1, more[0], log);
      AfterMemberIs(cfg, t, end, log, n, more[0].name);
      EntriesRead(cfg, t, end + 1, more, q, true, log, n);
    }
  }

  // ---------------------------------------------------------------- What is read is a tree

  /** Whatever is parsed as a value is a tree of the grammar, and its events were handed over. */
  lemma {:induction false} TreeFound(cfg: Config, t: bytes, p: nat, log: seq<Event>) returns (tree: Tree)
    requires p <= |t| && Value(cfg, t, p, log).Fine?
    ensures tree.at == p && TreeAt(cfg, t, tree)
    ensures Parsed(cfg, log, Value(cfg, t, p, log), To(tree), Events(tree))
    decreases |t| - p, 2
  {
    if Peek(t, p) == 0x5B {
      tree := ArrayFound(cfg, t, p, log);
    } else if Peek(t, p) == 0x7B {
      tree := ObjectFound(cfg, t, p, log);
    } else {
      tree := LeafFound(cfg, t, p, log);
      var offset := LeafRead(cfg, t, tree, log);
      Told(cfg, log, LeafEvent(tree), To(tree), offset);
    }
  }

  lemma {:induction false} ArrayFound(cfg: Config, t: bytes, p: nat, log: seq<Event>) returns (tree: Tree)
    requires p < |t| && t[p] == 0x5B && Value(cfg, t, p, log).Fine?
    ensures tree.at == p && TreeAt(cfg, t, tree)
    ensures Parsed(cfg, log, Value(cfg, t, p, log), To(tree), Events(tree))
    decreases |t| - p, 1
  {
    ArrayBegins(cfg, t, p, log);
    var items, to := InsideArrayFound(cfg, t, p, log + [StartArray]);
    tree := ArrayTree(p, items, to);
    AcceptsOne(cfg, log, StartArray);
    var inner := ItemsEvents(items) + [EndArray(|items| % 0x1_0000_0000)];
    ParsedBoth(cfg, log, [StartArray], Value(cfg, t, p, log), to, inner);
    assert Events(tree) == [StartArray] + inner;
  }

  lemma {:induction false} InsideArrayFound(cfg: Config, t: bytes, p: nat, log: seq<Event>)
    returns (items: seq<Item>, to: nat)
    requires p < |t| && t[p] == 0x5B && InsideArray(cfg, t, p, log).Fine?
    ensures ArrayAt(cfg, t, p, items, to)
    ensures Parsed(cfg, log, InsideArray(cfg, t, p, log), to, ItemsEvents(items) + [EndArray(|items| % 0x1_0000_0000)])
    decreases |t| - p, 0
  {
    var next := Blank(cfg, t, p + 1, log).pos;
    SkippedIsGap(cfg, t, p + 1, log);
    ElementsBegin(cfg, t, p, log, next);
    if Peek(t, next) == 0x5D {
      items, to := [], next + 1;
      EmptyArrayFound(cfg, t, p, next, log);
    } else {
      items, to := ItemsInsideFound(cfg, t, p, next, log);
    }
  }

  lemma {:induction false} ItemsInsideFound(cfg: Config, t: bytes, p: nat, next: nat, log: seq<Event>)
    returns (items: seq<Item>, to: nat)
    requires p < next <= |t| && t[p] == 0x5B && GapAt(cfg, t, p + 1, next) && Elements(cfg, t, next, log, 0).Fine?
    ensures ArrayAt(cfg, t, p, items, to)
    ensures Parsed(cfg, log, Elements(cfg, t, next, log, 0), to,
              ItemsEvents(items) + [EndArray(|items| % 0x1_0000_0000)])
    decreases |t| - next, 5
  {
    var q;
    items, q := ItemsFound(cfg, t, p + 1, next, log, 0, false);
    to := q + 1;
  }

  lemma EmptyArrayFound(cfg: Config, t: bytes, p: nat, q: nat, log: seq<Event>)
    requires p < q < |t| && t[p] == 0x5B && t[q] == 0x5D && GapAt(cfg, t, p + 1, q)
    requires Blank(cfg, t, p + 1, log) == Fine(q, log) && InsideArray(cfg, t, p, log).Fine?
    ensures ArrayAt(cfg, t, p, [], q + 1)
    ensures Parsed(cfg, log, InsideArray(cfg, t, p, log), q + 1, ItemsEvents([]) + [EndArray(0)])
  {
    ElementsBegin(cfg, t, p, log, q);
    LastFound(cfg, log, ItemsEvents([]), EndArray(0), q + 1, q + 1);
  }

  lemma LastFound(cfg: Config, log: seq<Event>, none: seq<Event>, e: Event, pos: nat, offset: nat)
    requires none == [] && Emit(cfg, log, e, pos, offset).Fine?
    ensures Parsed(cfg, log, Emit(cfg, log, e, pos, offset), pos, none + [e])
  {
    assert none + [e] == [e];
    Told(cfg, log, e, pos, offset);
  }

  lemma {:induction false} ItemsFound(
    cfg: Config, t: bytes, from: nat, p: nat, log: seq<Event>, count: nat, comma: bool)
    returns (items: seq<Item>, q: nat)
    requires from <= p <= |t| && GapAt(cfg, t, from, p) && count < 0x1_0000_0000
    requires Elements(cfg, t, p, log, count).Fine?
    ensures items != [] && from <= q < |t| && t[q] == 0x5D && ItemsAt(cfg, t, from, items, q, comma)
    ensures Parsed(cfg, log, Elements(cfg, t, p, log, count), q + 1,
              ItemsEvents(items) + [EndArray((count + |items|) % 0x1_0000_0000)])
    decreases |t| - p, 4
  {
    var item := ItemFound(cfg, t, from, p, log, count);
    var own := Events(item.value);
    items, q := AfterItemFound(cfg, t, item, log + own, (count + 1) % 0x1_0000_0000);
    ItemsJoin(cfg, log, Elements(cfg, t, p, log, count), q + 1, items, count, own);
  }

  lemma {:induction false} ItemsJoin(
    cfg: Config, log: seq<Event>, o: Outcome, pos: nat, items: seq<Item>, count: nat, own: seq<Event>)
    requires items != [] && own == Events(items[0].value) && Accepts(cfg, log, own)
    requires Parsed(cfg, log + own, o, pos,
               ItemsEvents(items[1..]) + [EndArray(((count + 1) % 0x1_0000_0000 + (|items| - 1)) % 0x1_0000_0000)])
    ensures Parsed(cfg, log, o, pos, ItemsEvents(items) + [EndArray((count + |items|) % 0x1_0000_0000)])
  {
    CountsOn(count, |items|);
    var rest := ItemsEvents(items[1..]) + [EndArray((count + |items|) % 0x1_0000_0000)];
    ParsedBoth(cfg, log, own, o, pos, rest);
    assert own + rest == ItemsEvents(items) + [EndArray((count + |items|) % 0x1_0000_0000)];
  }

  /** A value and the gaps around it. */
  lemma {:induction false} ItemFound(cfg: Config, t: bytes, from: nat, p: nat, log: seq<Event>, count: nat)
    returns (item: Item)
    requires from <= p <= |t| && GapAt(cfg, t, from, p) && Elements(cfg, t, p, log, count).Fine?
    ensures p < item.end && ItemAt(cfg, t, from, item) && Accepts(cfg, log, Events(item.value))
    ensures Elements(cfg, t, p, log, count)
         == AfterElement(cfg, t, item.end, log + Events(item.value), (count + 1) % 0x1_0000_0000)
    decreases |t| - p, 3
  {
    var v := TreeFound(cfg, t, p, log);
    var log1 := log + Events(v);
    var end := Blank(cfg, t, To(v), log1).pos;
    SkippedIsGap(cfg, t, To(v), log1);
    ElementBegins(cfg, t, p, log, count, To(v), log1, end);
    item := Item(v, end);
  }

  /** What stands after an item, with the item in front. */
  lemma {:induction false} AfterItemFound(cfg: Config, t: bytes, item: Item, log: seq<Event>, n: nat)
    returns (items: seq<Item>, q: nat)
    requires item.end <= |t| && n < 0x1_0000_0000 && AfterElement(cfg, t, item.end, log, n).Fine?
    ensures items != [] && items[0] == item && item.end <= q < |t| && t[q] == 0x5D && ItemsGoOn(cfg, t, items, q)
    ensures Parsed(cfg, log, AfterElement(cfg, t, item.end, log, n), q + 1,
              ItemsEvents(items[1..]) + [EndArray((n + (|items| - 1)) % 0x1_0000_0000)])
    decreases |t| - item.end, 6
  {
    var end := item.end;
    if Peek(t, end) == 0x2C {
      var next := Blank(cfg, t, end + 1, log).pos;
      SkippedIsGap(cfg, t, end + 1, log);
      AfterElementIs(cfg, t, end, log, n, next);
      if cfg.trailingCommas && Peek(t, next) == 0x5D {
        items, q := [item], next;
        ItemEnds(cfg, t, item, items, q);
        LastFound(cfg, log, ItemsEvents(items[1..]), EndArray(n), q + 1, q);
      } else {
        items, q := MoreItemsFound(cfg, t, item, next, log, n);
      }
    } else {
      items, q := [item], end;
      ItemEnds(cfg, t, item, items, q);
      AfterElementIs(cfg, t, end, log, n, q);
      LastFound(cfg, log, ItemsEvents(items[1..]), EndArray(n), q + 1, q + 1);
    }
  }

  lemma {:induction false} MoreItemsFound(cfg: Config, t: bytes, item: Item, next: nat, log: seq<Event>, n: nat)
    returns (items: seq<Item>, q: nat)
    requires item.end < next <= |t| && n < 0x1_0000_0000 && t[item.end] == 0x2C && GapAt(cfg, t, item.end + 1, next)
    requires Elements(cfg, t, next, log, n).Fine?
    ensures items != [] && items[0] == item && item.end <= q < |t| && t[q] == 0x5D && ItemsGoOn(cfg, t, items, q)
    ensures Parsed(cfg, log, Elements(cfg, t, next, log, n), q + 1,
              ItemsEvents(items[1..]) + [EndArray((n + (|items| - 1)) % 0x1_0000_0000)])
    decreases |t| - item.end, 5
  {
    var more;
    more, q := ItemsFound(cfg, t, item.end + 1, next, log, n, true);
    items := [item] + more;
    assert items[1..] == more;
  }

  /** The last one, with or without a comma after it. */
  lemma ItemEnds(cfg: Config, t: bytes, item: Item, items: seq<Item>, q: nat)
    requires items == [item] && item.end <= q < |t|
    requires item.end < q ==> cfg.trailingCommas && t[item.end] == 0x2C && GapAt(cfg, t, item.end + 1, q)
    ensures ItemsGoOn(cfg, t, items, q) && items[1..] == [] && ItemsEvents(items[1..]) == []
  {
    assert items[1..] == [];
  }

  lemma {:induction false} ObjectFound(cfg: Config, t: bytes, p: nat, log: seq<Event>) returns (tree: Tree)
    requires p < |t| && t[p] == 0x7B && Value(cfg, t, p, log).Fine?
    ensures tree.at == p && TreeAt(cfg, t, tree)
    ensures Parsed(cfg, log, Value(cfg, t, p, log), To(tree), Events(tree))
    decreases |t| - p, 1
  {
    ObjectBegins(cfg, t, p, log);
    var entries, to := InsideObjectFound(cfg, t, p, log + [StartObject]);
    tree := ObjectTree(p, entries, to);
    AcceptsOne(cfg, log, StartObject);
    var inner := EntriesEvents(entries) + [EndObject(|entries| % 0x1_0000_0000)];
    ParsedBoth(cfg, log, [StartObject], Value(cfg, t, p, log), to, inner);
    assert Events(tree) == [StartObject] + inner;
  }

  lemma {:induction false} InsideObjectFound(cfg: Config, t: bytes, p: nat, log: seq<Event>)
    returns (entries: seq<Entry>, to: nat)
    requires p < |t| && t[p] == 0x7B && InsideObject(cfg, t, p, log).Fine?
    ensures ObjectAt(cfg, t, p, entries, to)
    ensures Parsed(cfg, log, InsideObject(cfg, t, p, log), to,
              EntriesEvents(entries) + [EndObject(|entries| % 0x1_0000_0000)])
    decreases |t| - p, 0
  {
    var next := Blank(cfg, t, p + 1, log).pos;
    SkippedIsGap(cfg, t, p + 1, log);
    MembersBegin(cfg, t, p, log, next);
    if Peek(t, next) == 0x7D {
      entries, to := [], next + 1;
      EmptyObjectFound(cfg, t, p, next, log);
    } else {
      entries, to := EntriesInsideFound(cfg, t, p, next, log);
    }
  }

  lemma {:induction false} EntriesInsideFound(cfg: Config, t: bytes, p: nat, next: nat, log: seq<Event>)
    returns (entries: seq<Entry>, to: nat)
    requires p < next <= |t| && t[p] == 0x7B && GapAt(cfg, t, p + 1, next) && Members(cfg, t, next, log, 0).Fine?
    ensures ObjectAt(cfg, t, p, entries, to)
    ensures Parsed(cfg, log, Members(cfg, t, next, log, 0), to,
              EntriesEvents(entries) + [EndObject(|entries| % 0x1_0000_0000)])
    decreases |t| - next, 5
  {
    var q;
    entries, q := EntriesFound(cfg, t, p + 1, next, log, 0, false);
    to := q + 1;
  }

  lemma EmptyObjectFound(cfg: Config, t: bytes, p: nat, q: nat, log: seq<Event>)
    requires p < q < |t| && t[p] == 0x7B && t[q] == 0x7D && GapAt(cfg, t, p + 1, q)
    requires Blank(cfg, t, p + 1, log) == Fine(q, log) && InsideObject(cfg, t, p, log).Fine?
    ensures ObjectAt(cfg, t, p, [], q + 1)
    ensures Parsed(cfg, log, InsideObject(cfg, t, p, log), q + 1, EntriesEvents([]) + [EndObject(0)])
  {
    MembersBegin(cfg, t, p, log, q);
    LastFound(cfg, log, EntriesEvents([]), EndObject(0), q + 1, q + 1);
  }

  lemma ColonFound(cfg: Config, t: bytes, p: nat, log: seq<Event>, count: nat) returns (at: nat)
    requires p <= |t| && AtColon(cfg, t, p, log, count).Fine?
    ensures p < at <= |t| && t[p] == 0x3A && GapAt(cfg, t, p + 1, at)
    ensures AtColon(cfg, t, p, log, count) == MemberTail(cfg, t, at, log, count)
  {
    at := Blank(cfg, t, p + 1, log).pos;
    SkippedIsGap(cfg, t, p + 1, log);
    ParserEquivalence.ColonIs(cfg, t, p, log, count, Fine(at, log));
  }

  lemma AfterNameFound(cfg: Config, t: bytes, p: nat, log: seq<Event>, count: nat) returns (colon: nat)
    requires p <= |t| && AfterName(cfg, t, p, log, count).Fine?
    ensures p <= colon <= |t| && GapAt(cfg, t, p, colon)
    ensures AfterName(cfg, t, p, log, count) == AtColon(cfg, t, colon, log, count)
  {
    colon := Blank(cfg, t, p, log).pos;
    SkippedIsGap(cfg, t, p, log);
  }

  lemma KeyFound(cfg: Config, t: bytes, p: nat, log: seq<Event>, count: nat) returns (chars: seq<Char>, nameEnd: nat)
    requires p <= |t| && Members(cfg, t, p, log, count).Fine?
    ensures StringAt(t, p, chars) && nameEnd == p + Length(chars) + 2 <= |t|
    ensures cfg.accepts(log + [Key(Denoted(chars))])
    ensures Members(cfg, t, p, log, count) == AfterName(cfg, t, nameEnd, log + [Key(Denoted(chars))], count)
  {
    assert Peek(t, p) == 0x22;
    ParserEquivalence.MembersIs(cfg, t, p, log, count);
    chars := StringFound(cfg, t, p, true, log);
    nameEnd := p + Length(chars) + 2;
    QuoteIs(cfg, t, p, true, Denoted(chars), nameEnd, log);
  }

  /** A name, a colon and a value are found, and the gaps between them. */
  lemma NameFound(cfg: Config, t: bytes, p: nat, log: seq<Event>, count: nat)
    returns (chars: seq<Char>, nameEnd: nat, colon: nat, at: nat)
    requires p <= |t| && Members(cfg, t, p, log, count).Fine?
    ensures StringAt(t, p, chars) && nameEnd == p + Length(chars) + 2 <= colon < at <= |t|
    ensures GapAt(cfg, t, nameEnd, colon) && t[colon] == 0x3A && GapAt(cfg, t, colon + 1, at)
    ensures cfg.accepts(log + [Key(Denoted(chars))])
    ensures Members(cfg, t, p, log, count) == MemberTail(cfg, t, at, log + [Key(Denoted(chars))], count)
  {
    chars, nameEnd := KeyFound(cfg, t, p, log, count);
    var log1 := log + [Key(Denoted(chars))];
    colon := AfterNameFound(cfg, t, nameEnd, log1, count);
    at := ColonFound(cfg, t, colon, log1, count);
  }

  lemma {:induction false} MemberValueFound(cfg: Config, t: bytes, p: nat, log: seq<Event>, count: nat)
    returns (v: Tree, end: nat)
    requires p <= |t| && MemberTail(cfg, t, p, log, count).Fine?
    ensures v.at == p < To(v) <= end <= |t| && TreeAt(cfg, t, v) && GapAt(cfg, t, To(v), end)
    ensures Accepts(cfg, log, Events(v))
    ensures MemberTail(cfg, t, p, log, count)
         == AfterMember(cfg, t, end, log + Events(v), (count + 1) % 0x1_0000_0000)
    decreases |t| - p, 3
  {
    v := TreeFound(cfg, t, p, log);
    var log1 := log + Events(v);
    end := Blank(cfg, t, To(v), log1).pos;
    SkippedIsGap(cfg, t, To(v), log1);
    MemberBegins(cfg, t, p, log, count, To(v), log1, end);
  }

  /** A member and the gaps around it. */
  lemma {:induction false} EntryFound(
    cfg: Config, t: bytes, from: nat, p: nat, log: seq<Event>, count: nat) returns (e: Entry)
    requires from <= p <= |t| && GapAt(cfg, t, from, p) && Members(cfg, t, p, log, count).Fine?
    ensures p < e.end && EntryAt(cfg, t, from, e)
    ensures Accepts(cfg, log, EntryEvents(e))
    ensures
      Members(cfg, t, p, log, count)
      == AfterMember(cfg, t, e.end, log + EntryEvents(e), (count + 1) % 0x1_0000_0000)
    decreases |t| - p, 3
  {
    var chars, nameEnd, colon, at := NameFound(cfg, t, p, log, count);
    var v, end := MemberValueFound(cfg, t, at, log + [Key(Denoted(chars))], count);
    e := EntryOf(cfg, t, from, p, chars, nameEnd, colon, v, end, log);
  }

  lemma EntryOf(
    cfg: Config, t: bytes, from: nat, p: nat, chars: seq<Char>, nameEnd: nat, colon: nat, v: Tree, end: nat,
    log: seq<Event>) returns (e: Entry)
    requires StringAt(t, p, chars) && nameEnd == p + Length(chars) + 2 <= colon < v.at <= To(v) <= end <= |t|
    requires from <= p && GapAt(cfg, t, from, p) && GapAt(cfg, t, nameEnd, colon) && t[colon] == 0x3A
    requires GapAt(cfg, t, colon + 1, v.at) && TreeAt(cfg, t, v) && GapAt(cfg, t, To(v), end)
    requires cfg.accepts(log + [Key(Denoted(chars))]) && Accepts(cfg, log + [Key(Denoted(chars))], Events(v))
    ensures EntryAt(cfg, t, from, e) && e.end == end
    ensures Accepts(cfg, log, EntryEvents(e))
    ensures log + EntryEvents(e) == log + [Key(Denoted(chars))] + Events(v)
  {
    e := Entry(p, chars, colon, v, end);
    EntryMade(cfg, t, from, e, nameEnd);
    assert EntryEvents(e) == [Key(Denoted(chars))] + Events(v);
    KeyAnd(cfg, log, Key(Denoted(chars)), Events(v));
  }

  lemma EntryMade(cfg: Config, t: bytes, from: nat, e: Entry, nameEnd: nat)
    requires StringAt(t, e.name, e.chars) && nameEnd == e.name + Length(e.chars) + 2 <= e.colon < e.value.at <= |t|
    requires GapAt(cfg, t, nameEnd, e.colon) && t[e.colon] == 0x3A
    requires GapAt(cfg, t, e.colon + 1, e.value.at) && TreeAt(cfg, t, e.value)
    requires from <= e.name && GapAt(cfg, t, from, e.name)
    requires e.value.at <= To(e.value) <= e.end <= |t| && GapAt(cfg, t, To(e.value), e.end)
    ensures EntryAt(cfg, t, from, e)
  {
    assert NameAt(cfg, t, e);
  }

  lemma KeyAnd(cfg: Config, log: seq<Event>, key: Event, own: seq<Event>)
    requires cfg.accepts(log + [key]) && Accepts(cfg, log + [key], own)
    ensures Accepts(cfg, log, [key] + own) && log + [key] + own == log + ([key] + own)
  {
    AcceptsOne(cfg, log, key);
    AcceptsBoth(cfg, log, [key], own);
  }

  lemma {:induction false} EntriesFound(
    cfg: Config, t: bytes, from: nat, p: nat, log: seq<Event>, count: nat, comma: bool)
    returns (entries: seq<Entry>, q: nat)
    requires from <= p <= |t| && GapAt(cfg, t, from, p) && count < 0x1_0000_0000
    requires Members(cfg, t, p, log, count).Fine?
    ensures entries != [] && from <= q < |t| && t[q] == 0x7D && EntriesAt(cfg, t, from, entries, q, comma)
    ensures Parsed(cfg, log, Members(cfg, t, p, log, count), q + 1,
              EntriesEvents(entries) + [EndObject((count + |entries|) % 0x1_0000_0000)])
    decreases |t| - p, 4
  {
    var e := EntryFound(cfg, t, from, p, log, count);
    entries, q := EntryAndMore(cfg, t, from, e, log, count, comma, Members(cfg, t, p, log, count));
  }

  lemma {:induction false} EntryAndMore(
    cfg: Config, t: bytes, from: nat, e: Entry, log: seq<Event>, count: nat, comma: bool, o: Outcome)
    returns (entries: seq<Entry>, q: nat)
    requires EntryAt(cfg, t, from, e) && Accepts(cfg, log, EntryEvents(e)) && o.Fine?
    requires o == AfterMember(cfg, t, e.end, log + EntryEvents(e), (count + 1) % 0x1_0000_0000)
    ensures entries != [] && from <= q < |t| && t[q] == 0x7D && EntriesAt(cfg, t, from, entries, q, comma)
    ensures Parsed(cfg, log, o, q + 1, EntriesEvents(entries) + [EndObject((count + |entries|) % 0x1_0000_0000)])
    decreases |t| - e.end, 7
  {
    entries, q := AfterEntryFound(cfg, t, e, log + EntryEvents(e), (count + 1) % 0x1_0000_0000);
    EntriesJoin(cfg, log, o, q + 1, entries, count, EntryEvents(e));
  }

  lemma {:induction false} EntriesJoin(
    cfg: Config, log: seq<Event>, o: Outcome, pos: nat, entries: seq<Entry>, count: nat, own: seq<Event>)
    requires entries != [] && own == EntryEvents(entries[0]) && Accepts(cfg, log, own)
    requires Parsed(cfg, log + own, o, pos,
               EntriesEvents(entries[1..])
               + [EndObject(((count + 1) % 0x1_0000_0000 + (|entries| - 1)) % 0x1_0000_0000)])
    ensures Parsed(cfg, log, o, pos, EntriesEvents(entries) + [EndObject((count + |entries|) % 0x1_0000_0000)])
  {
    CountsOn(count, |entries|);
    var rest := EntriesEvents(entries[1..]) + [EndObject((count + |entries|) % 0x1_0000_0000)];
    ParsedBoth(cfg, log, own, o, pos, rest);
    assert own + rest == EntriesEvents(entries) + [EndObject((count + |entries|) % 0x1_0000_0000)];
  }

  lemma {:induction false} AfterEntryFound(cfg: Config, t: bytes, e: Entry, log: seq<Event>, n: nat)
    returns (entries: seq<Entry>, q: nat)
    requires e.end <= |t| && n < 0x1_0000_0000 && AfterMember(cfg, t, e.end, log, n).Fine?
    ensures entries != [] && entries[0] == e && e.end <= q < |t| && t[q] == 0x7D && EntriesGoOn(cfg, t, entries, q)
    ensures Parsed(cfg, log, AfterMember(cfg, t, e.end, log, n), q + 1,
              EntriesEvents(entries[1..]) + [EndObject((n + (|entries| - 1)) % 0x1_0000_0000)])
    decreases |t| - e.end, 6
  {
    var end := e.end;
    if Peek(t, end) == 0x2C {
      var next := Blank(cfg, t, end + 1, log).pos;
      SkippedIsGap(cfg, t, end + 1, log);
      AfterMemberIs(cfg, t, end, log, n, next);
      if cfg.trailingCommas && Peek(t, next) == 0x7D {
        entries, q := [e], next;
        EntryEnds(cfg, t, e, entries, q);
        LastFound(cfg, log, EntriesEvents(entries[1..]), EndObject(n), q + 1, q);
      } else {
        entries, q := MoreEntriesFound(cfg, t, e, next, log, n);
      }
    } else {
      entries, q := [e], end;
      EntryEnds(cfg, t, e, entries, q);
      AfterMemberIs(cfg, t, end, log, n, q);
      LastFound(cfg, log, EntriesEvents(entries[1..]), EndObject(n), q + 1, q + 1);
    }
  }

  lemma {:induction false} MoreEntriesFound(cfg: Config, t: bytes, e: Entry, next: nat, log: seq<Event>, n: nat)
    returns (entries: seq<Entry>, q: nat)
    requires e.end < next <= |t| && n < 0x1_0000_0000 && t[e.end] == 0x2C && GapAt(cfg, t, e.end + 1, next)
    requires Members(cfg, t, next, log, n).Fine?
    ensures entries != [] && entries[0] == e && e.end <= q < |t| && t[q] == 0x7D && EntriesGoOn(cfg, t, entries, q)
    ensures Parsed(cfg, log, Members(cfg, t, next, log, n), q + 1,
              EntriesEvents(entries[1..]) + [EndObject((n + (|entries| - 1)) % 0x1_0000_0000)])
    decreases |t| - e.end, 5
  {
    var more;
    more, q := EntriesFound(cfg, t, e.end + 1, next, log, n, true);
    entries := [e] + more;
    assert entries[1..] == more;
  }

  /** The last one, with or without a comma after it. */
  lemma EntryEnds(cfg: Config, t: bytes, e: Entry, entries: seq<Entry>, q: nat)
    requires entries == [e] && e.end <= q < |t|
    requires e.end < q ==> cfg.trailingCommas && t[e.end] == 0x2C && GapAt(cfg, t, e.end + 1, q)
    ensures EntriesGoOn(cfg, t, entries, q) && entries[1..] == [] && EntriesEvents(entries[1..]) == []
  {
    assert entries[1..] == [];
  }

  // ---------------------------------------------------------------- Texts

  /**
   The recursive parser succeeds exactly on the texts of the grammar whose events the handler accepts one by one, and
   then it has told the handler the events of the text's tree, and stops where the text ends.
   */
  lemma ParsesExactly(cfg: Config, t: bytes, pos: nat, log: seq<Event>)
    ensures Descent.Parse(cfg, t) == Fine(pos, log) <==>
      exists tree :: TextAt(cfg, t, tree, pos) && log == Events(tree) && Accepts(cfg, [], log)
  {
    if tree :| TextAt(cfg, t, tree, pos) && log == Events(tree) && Accepts(cfg, [], log) {
      TextRead(cfg, t, tree, pos);
      assert [] + log == log;
    }
    if Descent.Parse(cfg, t) == Fine(pos, log) {
      var tree := TextFound(cfg, t);
    }
  }

  lemma TextRead(cfg: Config, t: bytes, tree: Tree, pos: nat)
    requires TextAt(cfg, t, tree, pos) && Accepts(cfg, [], Events(tree))
    ensures Parsed(cfg, [], Descent.Parse(cfg, t), pos, Events(tree))
  {
    ValueStarts(cfg, t, tree);
    GapSkipped(cfg, t, 0, tree.at, []);
    TreeRead(cfg, t, tree, []);
    if !cfg.stopWhenDone {
      GapSkipped(cfg, t, To(tree), pos, [] + Events(tree));
    }
  }

  lemma TextFound(cfg: Config, t: bytes) returns (tree: Tree)
    requires Descent.Parse(cfg, t).Fine?
    ensures var o := Descent.Parse(cfg, t);
      TextAt(cfg, t, tree, o.pos) && o.log == Events(tree) && Accepts(cfg, [], o.log)
  {
    var start := Blank(cfg, t, 0, []);
    SkippedIsGap(cfg, t, 0, []);
    tree := TreeFound(cfg, t, start.pos, []);
    assert [] + Events(tree) == Events(tree);
    if !cfg.stopWhenDone {
      SkippedIsGap(cfg, t, To(tree), Events(tree));
    }
  }

  /** The table-driven parser succeeds exactly on the same texts, with the same events and the same end. */
  lemma IterativeParsesExactly(cfg: Config, t: bytes, pos: nat, log: seq<Event>)
    ensures Pushdown.Parse(cfg, t) == Fine(pos, log) <==>
      exists tree :: TextAt(cfg, t, tree, pos) && log == Events(tree) && Accepts(cfg, [], log)
  {
    ParsesExactly(cfg, t, pos, log);
    ParserEquivalence.ParsersAgree(cfg, t);
  }
}
