/** The DOM builder, and what it makes of every text the parser accepts or refuses. */
module Document {
  import opened Bytes
  import opened Sax
  import opened Strings
  import opened Numbers
  import opened Dom
  import opened Descent
  import Pushdown
  import ParserEquivalence
  import ReadBack

  /** The handler that keeps finished values on a stack until their container ends. */
  class Document {
    var root: Value
    var stack: seq<Value>

    constructor ()
      ensures root == NullValue && stack == []
    {
      root, stack := NullValue, [];
    }

    method Push(v: Value)
      modifies this`stack
      ensures stack == old(stack) + [v]
    {
      stack := stack + [v];
    }

    /** Removes the topmost values; they stay readable where they lie. */
    method Pop(n: nat) returns (cells: seq<Value>)
      requires n <= |stack|
      modifies this`stack
      ensures old(stack) == stack + cells && |cells| == n
    {
      cells := stack[|stack| - n..];
      stack := stack[..|stack| - n];
    }

    method Null() returns (ok: bool)
      modifies this`stack
      ensures ok && BuildStep(old(stack), Event.Null) == Some(stack)
    {
      Push(NullValue);
      return true;
    }

    method Bool(b: bool) returns (ok: bool)
      modifies this`stack
      ensures ok && BuildStep(old(stack), Event.Bool(b)) == Some(stack)
    {
      Push(BoolValue(b));
      return true;
    }

    method Int(i: int) returns (ok: bool)
      requires InInt32(i)
      modifies this`stack
      ensures ok && BuildStep(old(stack), Event.Int(i)) == Some(stack) && stack == old(stack) + [Canonical(i)]
    {
      ConstructorsAgree(i);
      Push(OfInt(i));
      return true;
    }

    method Uint(u: nat) returns (ok: bool)
      requires u <= MAX_UINT32
      modifies this`stack
      ensures ok && BuildStep(old(stack), Event.Uint(u)) == Some(stack) && stack == old(stack) + [Canonical(u)]
    {
      ConstructorsAgree(u);
      Push(OfUint(u));
      return true;
    }

    method Int64(i: int) returns (ok: bool)
      requires -MAX_INT64 - 1 <= i <= MAX_INT64
      modifies this`stack
      ensures ok && BuildStep(old(stack), Event.Int64(i)) == Some(stack) && stack == old(stack) + [Canonical(i)]
    {
      ConstructorsAgree(i);
      Push(OfInt64(i));
      return true;
    }

    method Uint64(u: nat) returns (ok: bool)
      requires u <= MAX_UINT64
      modifies this`stack
      ensures ok && BuildStep(old(stack), Event.Uint64(u)) == Some(stack) && stack == old(stack) + [Canonical(u)]
    {
      ConstructorsAgree(u);
      Push(OfUint64(u));
      return true;
    }

    method Double(literal: bytes) returns (ok: bool)
      modifies this`stack
      ensures ok && BuildStep(old(stack), Event.Double(literal)) == Some(stack)
    {
      Push(DoubleValue(literal));
      return true;
    }

    method String(str: bytes) returns (ok: bool)
      modifies this`stack
      ensures ok && BuildStep(old(stack), Event.String(str)) == Some(stack)
    {
      Push(StringValue(str));
      return true;
    }

    method Key(name: bytes) returns (ok: bool)
      modifies this`stack
      ensures ok && BuildStep(old(stack), Event.Key(name)) == Some(stack)
    {
      ok := String(name);
    }

    method StartObject() returns (ok: bool)
      modifies this`stack
      ensures ok && BuildStep(old(stack), Event.StartObject) == Some(stack)
    {
      Push(ObjectValue([]));
      return true;
    }

    method StartArray() returns (ok: bool)
      modifies this`stack
      ensures ok && BuildStep(old(stack), Event.StartArray) == Some(stack)
    {
      Push(ArrayValue([]));
      return true;
    }

    /** The caller vouches for the count: that many members lie above an object on the stack. */
    method EndObject(memberCount: nat) returns (ok: bool)
      requires BuildStep(stack, Event.EndObject(memberCount)).Some?
      modifies this`stack
      ensures ok && BuildStep(old(stack), Event.EndObject(memberCount)) == Some(stack)
    {
      var cells := Pop(2 * memberCount);
      assert cells == old(stack)[|old(stack)| - 2 * memberCount..];
      assert stack[..|stack| - 1] == old(stack)[..|old(stack)| - 2 * memberCount - 1];
      stack := stack[..|stack| - 1] + [ObjectValue(PairUp(cells).value)];
      return true;
    }

    method EndArray(elementCount: nat) returns (ok: bool)
      requires BuildStep(stack, Event.EndArray(elementCount)).Some?
      modifies this`stack
      ensures ok && BuildStep(old(stack), Event.EndArray(elementCount)) == Some(stack)
    {
      var cells := Pop(elementCount);
      assert cells == old(stack)[|old(stack)| - elementCount..];
      assert stack[..|stack| - 1] == old(stack)[..|old(stack)| - elementCount - 1];
      stack := stack[..|stack| - 1] + [ArrayValue(cells)];
      return true;
    }

    /** After a successful parse the one value on the stack becomes the document; the stack is left empty. */
    method Finish(parsed: bool)
      requires parsed ==> |stack| == 1
      modifies this
      ensures stack == [] && root == if parsed then old(stack)[0] else old(root)
    {
      if parsed {
        var top := Pop(1);
        root := top[0];
      }
      stack := [];
    }
  }

  // ---------------------------------------------------------------- Every text builds

  /** The stack after a history, when building never fails. */
  ghost predicate Stands(log: seq<Event>, stack: seq<Value>) {
    Build([], log) == Some(stack)
  }

  lemma StandsNext(log: seq<Event>, stack: seq<Value>, e: Event)
    requires Stands(log, stack) && BuildStep(stack, e).Some?
    ensures Stands(log + [e], BuildStep(stack, e).value)
  {
    BuildConcat([], log, [e]);
    BuildOne(stack, e);
  }

  /** A part of the text built one more value on top of what was there, or stopped with the builder intact. */
  ghost predicate BuildsOne(stack: seq<Value>, o: Outcome) {
    && Build([], o.log).Some?
    && (o.Fine? ==> var after := Build([], o.log).value; |after| == |stack| + 1 && after[..|stack|] == stack)
  }

  lemma StepBuildsOne(cfg: Config, log: seq<Event>, stack: seq<Value>, outer: seq<Value>, e: Event, pos: nat,
                      offset: nat, after: seq<Value>)
    requires Stands(log, stack) && BuildStep(stack, e) == Some(after)
    requires |after| == |outer| + 1 && after[..|outer|] == outer
    ensures BuildsOne(outer, Emit(cfg, log, e, pos, offset))
  {
    StandsNext(log, stack, e);
  }

  lemma LeafEventBuilds(cfg: Config, log: seq<Event>, stack: seq<Value>, e: Event, pos: nat, offset: nat)
    requires Stands(log, stack) && LeafValue(e).Some?
    ensures BuildsOne(stack, Emit(cfg, log, e, pos, offset))
  {
    StepBuildsOne(cfg, log, stack, stack, e, pos, offset, stack + [LeafValue(e).value]);
  }

  lemma NumberBuilds(cfg: Config, t: bytes, p: nat, log: seq<Event>, stack: seq<Value>)
    requires p <= |t| && Stands(log, stack)
    ensures BuildsOne(stack, Number(cfg, t, p, log))
  {
    var s := ScanNumber(t, p);
    if s.Found? {
      var l := s.literal;
      if IntegerEvent(l.minus, IntegerValue(t, l)).Some? {
        LeafEventBuilds(cfg, log, stack, IntegerEvent(l.minus, IntegerValue(t, l)).value, l.end, p);
      }
      LeafEventBuilds(cfg, log, stack, Double(t[p..l.end]), l.end, p);
    }
  }

  lemma QuoteBuilds(cfg: Config, t: bytes, p: nat, isKey: bool, log: seq<Event>, stack: seq<Value>)
    requires p < |t| && Stands(log, stack)
    ensures BuildsOne(stack, Quote(cfg, t, p, isKey, log))
    ensures var o := Quote(cfg, t, p, isKey, log);
      o.Fine? ==> Build([], o.log).value[|stack|].StringValue?
  {
    var d := Unescape(t, p + 1, []);
    if d.Text? {
      var e := if isKey then Key(d.str) else String(d.str);
      LeafEventBuilds(cfg, log, stack, e, d.next, d.next);
      StandsNext(log, stack, e);
    }
  }

  lemma ScalarBuilds(cfg: Config, t: bytes, p: nat, log: seq<Event>, stack: seq<Value>)
    requires p <= |t| && Stands(log, stack)
    ensures BuildsOne(stack, Scalar(cfg, t, p, log))
  {
    var c := Peek(t, p);
    if c == LETTER_N || c == LETTER_T || c == LETTER_F {
      var word, e := if c == LETTER_N then NULL_WORD else if c == LETTER_T then TRUE_WORD else FALSE_WORD,
        if c == LETTER_N then Null else Bool(c == LETTER_T);
      var q := p + Matched(t, p, word);
      LeafEventBuilds(cfg, log, stack, e, q, q);
    } else if c == QUOTE {
      QuoteBuilds(cfg, t, p, false, log, stack);
    } else {
      NumberBuilds(cfg, t, p, log, stack);
    }
  }

  /** Inside an object: `cells` holds the names and values of `count` whole members. */
  ghost predicate InMembers(log: seq<Event>, outer: seq<Value>, cells: seq<Value>, count: nat) {
    Stands(log, outer + [ObjectValue([])] + cells) && |cells| == 2 * count && PairUp(cells).Some?
  }

  /** Inside an array: `cells` holds `count` elements. */
  ghost predicate InElements(log: seq<Event>, outer: seq<Value>, cells: seq<Value>, count: nat) {
    Stands(log, outer + [ArrayValue([])] + cells) && |cells| == count
  }

  lemma StackConcat(a: seq<Value>, b: seq<Value>, c: seq<Value>)
    ensures a + b + c == a + (b + c)
  {
  }

  lemma PairConcat(a: seq<Value>, b: seq<Value>, x: Value, y: Value)
    ensures a + b + [x] + [y] == a + (b + [x, y])
  {
  }

  lemma {:induction false} PairUpAppend(cells: seq<Value>, name: Value, v: Value)
    requires PairUp(cells).Some? && name.StringValue?
    ensures PairUp(cells + [name, v]) == Some(PairUp(cells).value + [Member(name.str, v)])
    decreases |cells|
  {
    if cells == [] {
      assert [name, v][2..] == [];
      assert PairUp([name, v]) == Some([Member(name.str, v)] + []);
      assert cells + [name, v] == [name, v];
      assert PairUp(cells).value + [Member(name.str, v)] == [Member(name.str, v)] + [];
    } else {
      assert (cells + [name, v])[2..] == cells[2..] + [name, v];
      PairUpAppend(cells[2..], name, v);
      var first, rest := [Member(cells[0].str, cells[1])], PairUp(cells[2..]).value;
      assert first + (rest + [Member(name.str, v)]) == first + rest + [Member(name.str, v)];
    }
  }

  lemma MemberGrown(log: seq<Event>, outer: seq<Value>, cells: seq<Value>, count: nat, key: Value, v: Value)
    requires Stands(log, outer + [ObjectValue([])] + cells + [key] + [v])
    requires key.StringValue? && PairUp(cells).Some? && |cells| == 2 * count
    ensures InMembers(log, outer, cells + [key, v], count + 1)
  {
    PairUpAppend(cells, key, v);
    PairConcat(outer + [ObjectValue([])], cells, key, v);
  }

  lemma EndObjectBuilds(cfg: Config, log: seq<Event>, outer: seq<Value>, cells: seq<Value>, count: nat, pos: nat,
                        offset: nat)
    requires InMembers(log, outer, cells, count)
    ensures BuildsOne(outer, Emit(cfg, log, EndObject(count), pos, offset))
  {
    var stack := outer + [ObjectValue([])] + cells;
    Opening(outer, ObjectValue([]), cells);
    StepBuildsOne(cfg, log, stack, outer, EndObject(count), pos, offset,
      outer + [ObjectValue(PairUp(cells).value)]);
  }

  lemma EndArrayBuilds(cfg: Config, log: seq<Event>, outer: seq<Value>, cells: seq<Value>, count: nat, pos: nat,
                       offset: nat)
    requires InElements(log, outer, cells, count)
    ensures BuildsOne(outer, Emit(cfg, log, EndArray(count), pos, offset))
  {
    var stack := outer + [ArrayValue([])] + cells;
    Opening(outer, ArrayValue([]), cells);
    StepBuildsOne(cfg, log, stack, outer, EndArray(count), pos, offset, outer + [ArrayValue(cells)]);
  }

  /** The one value a part of the text built. */
  lemma Grown(stack: seq<Value>, o: Outcome) returns (v: Value)
    requires o.Fine? && BuildsOne(stack, o)
    ensures Stands(o.log, stack + [v])
  {
    var after := Build([], o.log).value;
    v := after[|stack|];
    assert after == stack + [v];
  }

  lemma {:induction false} ValueBuilds(cfg: Config, t: bytes, p: nat, log: seq<Event>, stack: seq<Value>)
    requires p <= |t| <= MAX_UINT32 && Stands(log, stack)
    ensures BuildsOne(stack, Descent.Value(cfg, t, p, log))
    decreases |t| - p, 2
  {
    if Peek(t, p) == LEFT_CURLY {
      ObjectBuilds(cfg, t, p, log, stack);
    } else if Peek(t, p) == LEFT_BRACKET {
      ArrayBuilds(cfg, t, p, log, stack);
    } else {
      ScalarBuilds(cfg, t, p, log, stack);
    }
  }

  lemma {:induction false} ObjectBuilds(cfg: Config, t: bytes, p: nat, log: seq<Event>, outer: seq<Value>)
    requires p < |t| <= MAX_UINT32 && Stands(log, outer)
    ensures BuildsOne(outer, Object(cfg, t, p, log))
    decreases |t| - p, 1
  {
    StandsNext(log, outer, StartObject);
    var start := Emit(cfg, log, StartObject, p + 1, p + 1);
    if start.Fine? {
      var inner := Blank(cfg, t, start.pos, start.log);
      if inner.Fine? {
        assert outer + [ObjectValue([])] + [] == outer + [ObjectValue([])];
        assert InMembers(inner.log, outer, [], 0);
        if Peek(t, inner.pos) == RIGHT_CURLY {
          EndObjectBuilds(cfg, inner.log, outer, [], 0, inner.pos + 1, inner.pos + 1);
        } else {
          MembersBuild(cfg, t, inner.pos, inner.log, 0, outer, []);
        }
      }
    }
  }

  lemma {:induction false} MembersBuild(
    cfg: Config, t: bytes, p: nat, log: seq<Event>, count: nat, outer: seq<Value>, cells: seq<Value>)
    requires count <= p <= |t| <= MAX_UINT32 && InMembers(log, outer, cells, count)
    ensures BuildsOne(outer, Members(cfg, t, p, log, count))
    decreases |t| - p, 0
  {
    if Peek(t, p) == QUOTE {
      var stack := outer + [ObjectValue([])] + cells;
      QuoteBuilds(cfg, t, p, true, log, stack);
      var name := Quote(cfg, t, p, true, log);
      if name.Fine? {
        var key := Grown(stack, name);
        assert key.StringValue?;
        AfterNameBuilds(cfg, t, name.pos, name.log, count, outer, cells, key);
      }
    }
  }

  lemma {:induction false} AfterNameBuilds(
    cfg: Config, t: bytes, p: nat, log: seq<Event>, count: nat, outer: seq<Value>, cells: seq<Value>, key: Value)
    requires count < p <= |t| <= MAX_UINT32 && key.StringValue? && PairUp(cells).Some? && |cells| == 2 * count
    requires Stands(log, outer + [ObjectValue([])] + cells + [key])
    ensures BuildsOne(outer, AfterName(cfg, t, p, log, count))
    decreases |t| - p, 5
  {
    var colon := Blank(cfg, t, p, log);
    if colon.Fine? && Peek(t, colon.pos) == COLON {
      var before := Blank(cfg, t, colon.pos + 1, log);
      if before.Fine? {
        MemberTailBuilds(cfg, t, before.pos, log, count, outer, cells, key);
      }
    }
  }

  lemma {:induction false} MemberTailBuilds(
    cfg: Config, t: bytes, p: nat, log: seq<Event>, count: nat, outer: seq<Value>, cells: seq<Value>, key: Value)
    requires count < p <= |t| <= MAX_UINT32 && key.StringValue? && PairUp(cells).Some? && |cells| == 2 * count
    requires Stands(log, outer + [ObjectValue([])] + cells + [key])
    ensures BuildsOne(outer, MemberTail(cfg, t, p, log, count))
    decreases |t| - p, 3
  {
    var stack := outer + [ObjectValue([])] + cells + [key];
    ValueBuilds(cfg, t, p, log, stack);
    var value := Descent.Value(cfg, t, p, log);
    if value.Fine? {
      ReadBack.MemberTailThen(cfg, t, p, log, count, value);
      AfterValueBuilds(cfg, t, value, count, outer, cells, key);
    }
  }

  lemma {:induction false} AfterValueBuilds(
    cfg: Config, t: bytes, value: Outcome, count: nat, outer: seq<Value>, cells: seq<Value>, key: Value)
    requires value.Fine? && count < value.pos <= |t| <= MAX_UINT32
    requires BuildsOne(outer + [ObjectValue([])] + cells + [key], value)
    requires key.StringValue? && PairUp(cells).Some? && |cells| == 2 * count
    ensures BuildsOne(outer, ReadBack.AfterMemberBlank(cfg, t, value.pos, value.log, Next32(count)))
    decreases |t| - value.pos, 4
  {
    var v := Grown(outer + [ObjectValue([])] + cells + [key], value);
    MemberGrown(value.log, outer, cells, count, key, v);
    var after := Blank(cfg, t, value.pos, value.log);
    if after.Fine? {
      AfterMemberBuilds(cfg, t, after.pos, value.log, count + 1, outer, cells + [key, v]);
    }
  }

  lemma {:induction false} AfterMemberBuilds(
    cfg: Config, t: bytes, p: nat, log: seq<Event>, count: nat, outer: seq<Value>, cells: seq<Value>)
    requires count <= p <= |t| <= MAX_UINT32 && InMembers(log, outer, cells, count)
    ensures BuildsOne(outer, AfterMember(cfg, t, p, log, count))
    decreases |t| - p, 1
  {
    if Peek(t, p) == COMMA {
      var next := Blank(cfg, t, p + 1, log);
      if next.Fine? {
        if cfg.trailingCommas && Peek(t, next.pos) == RIGHT_CURLY {
          EndObjectBuilds(cfg, log, outer, cells, count, next.pos + 1, next.pos);
        } else {
          MembersBuild(cfg, t, next.pos, log, count, outer, cells);
        }
      }
    } else if Peek(t, p) == RIGHT_CURLY {
      EndObjectBuilds(cfg, log, outer, cells, count, p + 1, p + 1);
    }
  }

  lemma {:induction false} ArrayBuilds(cfg: Config, t: bytes, p: nat, log: seq<Event>, outer: seq<Value>)
    requires p < |t| <= MAX_UINT32 && Stands(log, outer)
    ensures BuildsOne(outer, Array(cfg, t, p, log))
    decreases |t| - p, 1
  {
    StandsNext(log, outer, StartArray);
    var start := Emit(cfg, log, StartArray, p + 1, p + 1);
    if start.Fine? {
      var inner := Blank(cfg, t, start.pos, start.log);
      if inner.Fine? {
        assert outer + [ArrayValue([])] + [] == outer + [ArrayValue([])];
        assert InElements(inner.log, outer, [], 0);
        if Peek(t, inner.pos) == RIGHT_BRACKET {
          EndArrayBuilds(cfg, inner.log, outer, [], 0, inner.pos + 1, inner.pos + 1);
        } else {
          ElementsBuild(cfg, t, inner.pos, inner.log, 0, outer, []);
        }
      }
    }
  }

  lemma {:induction false} ElementsBuild(
    cfg: Config, t: bytes, p: nat, log: seq<Event>, count: nat, outer: seq<Value>, cells: seq<Value>)
    requires count <= p <= |t| <= MAX_UINT32 && InElements(log, outer, cells, count)
    ensures BuildsOne(outer, Elements(cfg, t, p, log, count))
    decreases |t| - p, 3
  {
    ValueBuilds(cfg, t, p, log, outer + [ArrayValue([])] + cells);
    var value := Descent.Value(cfg, t, p, log);
    if value.Fine? {
      ReadBack.ElementsThen(cfg, t, p, log, count, value);
      AfterElementValueBuilds(cfg, t, value, count, outer, cells);
    }
  }

  lemma {:induction false} AfterElementValueBuilds(
    cfg: Config, t: bytes, value: Outcome, count: nat, outer: seq<Value>, cells: seq<Value>)
    requires value.Fine? && count < value.pos <= |t| <= MAX_UINT32 && |cells| == count
    requires BuildsOne(outer + [ArrayValue([])] + cells, value)
    ensures BuildsOne(outer, ReadBack.AfterBlank(cfg, t, value.pos, value.log, Next32(count)))
    decreases |t| - value.pos, 4
  {
    var v := Grown(outer + [ArrayValue([])] + cells, value);
    StackConcat(outer + [ArrayValue([])], cells, [v]);
    var after := Blank(cfg, t, value.pos, value.log);
    if after.Fine? {
      AfterElementBuilds(cfg, t, after.pos, value.log, count + 1, outer, cells + [v]);
    }
  }

  lemma {:induction false} AfterElementBuilds(
    cfg: Config, t: bytes, p: nat, log: seq<Event>, count: nat, outer: seq<Value>, cells: seq<Value>)
    requires count <= p <= |t| <= MAX_UINT32 && InElements(log, outer, cells, count)
    ensures BuildsOne(outer, AfterElement(cfg, t, p, log, count))
    decreases |t| - p, 1
  {
    if Peek(t, p) == COMMA {
      var next := Blank(cfg, t, p + 1, log);
      if next.Fine? {
        if cfg.trailingCommas && Peek(t, next.pos) == RIGHT_BRACKET {
          EndArrayBuilds(cfg, log, outer, cells, count, next.pos + 1, next.pos);
        } else {
          ElementsBuild(cfg, t, next.pos, log, count, outer, cells);
        }
      }
    } else if Peek(t, p) == RIGHT_BRACKET {
      EndArrayBuilds(cfg, log, outer, cells, count, p + 1, p + 1);
    }
  }

  /**
   Whatever the text, building from the events never pops more than the stack holds; after a successful parse, by
   either parser, exactly one value is left. Counts wrap at 32 bits, so the text is shorter than that.
   */
  lemma ParseLeavesOneValue(cfg: Config, t: bytes)
    requires |t| <= MAX_UINT32
    ensures var o := Descent.Parse(cfg, t);
      Build([], o.log).Some? && (o.Fine? ==> |Build([], o.log).value| == 1)
    ensures var o := Pushdown.Parse(cfg, t);
      Build([], o.log).Some? && (o.Fine? ==> |Build([], o.log).value| == 1)
  {
    ParserEquivalence.ParsersAgree(cfg, t);
    var start := Blank(cfg, t, 0, []);
    if start.Fine? {
      ValueBuilds(cfg, t, start.pos, [], []);
    }
  }
}
