/** The table-driven parser does what the recursive one does, on every text, flag setting and handler. */
module ParserEquivalence {
  import opened Bytes
  import opened Sax
  import Descent
  import Numbers
  import Strings
  import opened Pushdown

  /** An opening bracket, or a closing one that does not follow a trailing comma: `last` is the machine's state. */
  predicate TakenFirst(log: seq<Event>, last: State) {
    log != [] &&
    var e := log[|log| - 1];
    e.StartObject? || e.StartArray?
    || ((e.EndObject? || e.EndArray?) && !AfterComma(last))
  }

  /** How much further on the recursive parser reports a refusal: it has then taken the bracket. */
  function Shift(r: Outcome, last: State): nat {
    if r.Halt? && r.code == Termination && TakenFirst(r.log, last) then 1 else 0
  }

  /**
   Same success with the same events and end position, or same error with the same events. Positions of errors
   agree but for refused brackets: there the recursive parser takes the bracket before it asks the handler and the
   machine after, except for a bracket that follows a trailing comma.
   */
  ghost predicate Agree(recursive: Outcome, iterative: Outcome, last: State) {
    if recursive.Fine? then
      recursive == iterative
    else
      && iterative.Halt?
      && recursive.log == iterative.log
      && recursive.code == iterative.code
      && recursive.offset == iterative.offset + Shift(recursive, last)
  }

  /** The machine `m` does what `r` says and, after success, goes on as state `after` with stack `frames`. */
  ghost predicate Simulates(cfg: Config, t: bytes, m: Machine, r: Outcome, after: State, frames: seq<Frame>)
    requires m.pos <= |t|
  {
    if r.Halt? then
      Agree(r, Run(cfg, t, m), Final(cfg, t, m).state)
    else
      && r.pos <= |t|
      && Run(cfg, t, m) == Resume(cfg, t, Machine(after, r.pos, frames, r.log))
      && Final(cfg, t, m) == FinalResume(cfg, t, Machine(after, r.pos, frames, r.log))
  }

  /** A machine that runs like another and ends where the other ends. */
  ghost predicate RunsLike(cfg: Config, t: bytes, m: Machine, m2: Machine)
    requires m.pos <= |t| && m2.pos <= |t|
  {
    Run(cfg, t, m) == Run(cfg, t, m2) && Final(cfg, t, m) == Final(cfg, t, m2)
  }

  function AfterValue(s: State): State {
    if s == Start then Finish else ReturnState(s)
  }

  /** First characters of a value that the table knows as punctuation. */
  predicate IsPunctuation(c: byte) {
    c == RIGHT_BRACKET || c == RIGHT_CURLY || c == COMMA || c == COLON
  }

  /** In state `s` before character `c` the machine waits for a value and the recursive parser parses one. */
  predicate AwaitsValue(cfg: Config, s: State, c: byte) {
    || (s.Start? && c != 0 && !IsPunctuation(c))
    || (s.ArrayInitial? && c != RIGHT_BRACKET)
    || (s.ElementDelimiter? && (c == RIGHT_BRACKET ==> !cfg.trailingCommas))
    || s.KeyValueDelimiter?
  }

  /** In state `s` before character `c` the machine waits for a member and the recursive parser parses one. */
  predicate AwaitsMember(cfg: Config, s: State, c: byte) {
    || (s.ObjectInitial? && c != RIGHT_CURLY)
    || (s.MemberDelimiter? && (c == RIGHT_CURLY ==> !cfg.trailingCommas))
  }

  // ---------------------------------------------------------------- Steps of the machine

  lemma ResumeBlank(cfg: Config, t: bytes, m: Machine)
    requires m.pos <= |t| && m.state != Finish
    ensures var next := Blank(cfg, t, m.pos, m.log);
      Resume(cfg, t, m) == if next.Fine? then Run(cfg, t, m.(pos := next.pos)) else next
    ensures var next := Blank(cfg, t, m.pos, m.log);
      FinalResume(cfg, t, m) == if next.Fine? then Final(cfg, t, m.(pos := next.pos)) else m
  {
  }

  /** A machine that runs like `m2` does what `m2` does. */
  lemma Through(cfg: Config, t: bytes, m: Machine, m2: Machine, r: Outcome, after: State, frames: seq<Frame>)
    requires m.pos <= |t| && m2.pos <= |t|
    requires RunsLike(cfg, t, m, m2)
    requires Simulates(cfg, t, m2, r, after, frames)
    ensures Simulates(cfg, t, m, r, after, frames)
  {
  }

  lemma RunStops(cfg: Config, t: bytes, m: Machine, o: Outcome)
    requires m.pos < |t| && t[m.pos] != 0 && Next(cfg, t, m) == Stop(o)
    ensures Run(cfg, t, m) == o && Final(cfg, t, m) == m
  {
  }

  lemma RunGoes(cfg: Config, t: bytes, m: Machine, next: Machine)
    requires m.pos < |t| && t[m.pos] != 0 && Next(cfg, t, m) == Go(next)
    ensures Run(cfg, t, m) == Resume(cfg, t, next) && Final(cfg, t, m) == FinalResume(cfg, t, next)
  {
  }

  /** A leaf: the machine continues in `after` or stops with the same outcome. */
  lemma RunContinues(cfg: Config, t: bytes, m: Machine, o: Outcome, after: State, frames: seq<Frame>)
    requires m.pos < |t| && t[m.pos] != 0 && Next(cfg, t, m) == Continue(o, after, frames)
    requires Shift(o, m.state) == 0
    ensures Simulates(cfg, t, m, o, after, frames)
  {
    if o.Fine? {
      RunGoes(cfg, t, m, Machine(after, o.pos, frames, o.log));
    } else {
      RunStops(cfg, t, m, o);
    }
  }

  /** A transition to `m1` and the white space after it. */
  lemma Advance(cfg: Config, t: bytes, m: Machine, m1: Machine) returns (next: Outcome)
    requires m.pos < |t| && t[m.pos] != 0 && Next(cfg, t, m) == Go(m1) && m1.state != Finish
    ensures m.pos < m1.pos <= |t| && next == Blank(cfg, t, m1.pos, m1.log)
    ensures next.Halt? ==> Run(cfg, t, m) == next
    ensures next.Fine? ==> next.log == m1.log && m1.pos <= next.pos <= |t|
    ensures next.Fine? ==> RunsLike(cfg, t, m, m1.(pos := next.pos))
  {
    RunGoes(cfg, t, m, m1);
    ResumeBlank(cfg, t, m1);
    next := Blank(cfg, t, m1.pos, m1.log);
  }

  // ---------------------------------------------------------------- Values

  lemma PunctuationIsNoValue(cfg: Config, t: bytes, p: nat, log: seq<Event>)
    requires p <= |t| && (Peek(t, p) == 0 || IsPunctuation(Peek(t, p)))
    ensures Descent.Value(cfg, t, p, log) == Halt(log, ValueInvalid, p)
  {
  }

  lemma RunPunctuation(cfg: Config, t: bytes, m: Machine)
    requires m.pos <= |t| && (Peek(t, m.pos) == 0 || IsPunctuation(Peek(t, m.pos)))
    requires AwaitsValue(cfg, m.state, Peek(t, m.pos))
    ensures Run(cfg, t, m) == Halt(m.log, ValueInvalid, m.pos)
  {
  }

  lemma ValueIsScalar(cfg: Config, t: bytes, p: nat, log: seq<Event>)
    requires p <= |t| && Peek(t, p) != LEFT_CURLY && Peek(t, p) != LEFT_BRACKET
    ensures Descent.Value(cfg, t, p, log) == Descent.Scalar(cfg, t, p, log)
  {
  }

  lemma ValueIsContainer(cfg: Config, t: bytes, p: nat, log: seq<Event>)
    requires p < |t|
    ensures t[p] == LEFT_CURLY ==> Descent.Value(cfg, t, p, log) == Descent.Object(cfg, t, p, log)
    ensures t[p] == LEFT_BRACKET ==> Descent.Value(cfg, t, p, log) == Descent.Array(cfg, t, p, log)
  {
  }

  lemma NextScalar(cfg: Config, t: bytes, m: Machine)
    requires m.pos < |t| && AwaitsValue(cfg, m.state, t[m.pos]) && IsScalarToken(Tokenize(t[m.pos]))
    ensures Next(cfg, t, m) == Continue(Descent.Scalar(cfg, t, m.pos, m.log), AfterValue(m.state), m.frames)
  {
  }

  /** A refused event that is no bracket is reported at one place by both parsers. */
  lemma ScalarRefused(cfg: Config, t: bytes, p: nat, log: seq<Event>, last: State)
    requires p <= |t|
    ensures Shift(Descent.Scalar(cfg, t, p, log), last) == 0
  {
    if p < |t| && t[p] == QUOTE {
      QuoteRefused(cfg, t, p, false, log, last);
    }
    NumberRefused(cfg, t, p, log, last);
  }

  lemma QuoteRefused(cfg: Config, t: bytes, p: nat, isKey: bool, log: seq<Event>, last: State)
    requires p < |t|
    ensures Shift(Descent.Quote(cfg, t, p, isKey, log), last) == 0
  {
    Strings.BadIsNoRefusal(t, p + 1, []);
  }

  lemma NumberRefused(cfg: Config, t: bytes, p: nat, log: seq<Event>, last: State)
    requires p <= |t|
    ensures Shift(Numbers.Number(cfg, t, p, log), last) == 0
  {
  }

  lemma {:induction false} SimulateValue(cfg: Config, t: bytes, m: Machine)
    requires m.pos <= |t| && AwaitsValue(cfg, m.state, Peek(t, m.pos))
    ensures Simulates(cfg, t, m, Descent.Value(cfg, t, m.pos, m.log), AfterValue(m.state), m.frames)
    decreases |t| - m.pos, 2
  {
    var c := Peek(t, m.pos);
    if c == 0 || IsPunctuation(c) {
      PunctuationIsNoValue(cfg, t, m.pos, m.log);
      RunPunctuation(cfg, t, m);
    } else if c == LEFT_CURLY {
      ValueIsContainer(cfg, t, m.pos, m.log);
      SimulateObject(cfg, t, m);
    } else if c == LEFT_BRACKET {
      ValueIsContainer(cfg, t, m.pos, m.log);
      SimulateArray(cfg, t, m);
    } else {
      ValueIsScalar(cfg, t, m.pos, m.log);
      NextScalar(cfg, t, m);
      ScalarRefused(cfg, t, m.pos, m.log, m.state);
      RunContinues(cfg, t, m, Descent.Scalar(cfg, t, m.pos, m.log), AfterValue(m.state), m.frames);
    }
  }

  // ---------------------------------------------------------------- Brackets

  lemma NextOpens(cfg: Config, t: bytes, m: Machine, object_: bool)
    requires m.pos < |t| && AwaitsValue(cfg, m.state, t[m.pos])
    requires t[m.pos] == if object_ then LEFT_CURLY else LEFT_BRACKET
    ensures Next(cfg, t, m) == Open(cfg, m, if object_ then ObjectInitial else ArrayInitial)
  {
  }

  /** An opening bracket, accepted or refused, and the white space after it. */
  lemma RunOpens(cfg: Config, t: bytes, m: Machine, object_: bool) returns (next: Outcome, m2: Machine)
    requires m.pos < |t| && AwaitsValue(cfg, m.state, t[m.pos])
    requires t[m.pos] == if object_ then LEFT_CURLY else LEFT_BRACKET
    ensures var log := m.log + [if object_ then StartObject else StartArray];
      if !cfg.accepts(log) then
        next.Halt? && Run(cfg, t, m) == Halt(log, Termination, m.pos) && Final(cfg, t, m) == m
      else
        && next == Blank(cfg, t, m.pos + 1, log)
        && (next.Halt? ==> Run(cfg, t, m) == next)
        && (next.Fine? ==>
              && m.pos < m2.pos <= |t|
              && m2 == Machine(if object_ then ObjectInitial else ArrayInitial, next.pos,
                               m.frames + [Frame(ReturnState(m.state), 0)], log)
              && RunsLike(cfg, t, m, m2))
  {
    NextOpens(cfg, t, m, object_);
    var log := m.log + [if object_ then StartObject else StartArray];
    m2 := Machine(if object_ then ObjectInitial else ArrayInitial, m.pos + 1,
      m.frames + [Frame(ReturnState(m.state), 0)], log);
    if cfg.accepts(log) {
      next := Advance(cfg, t, m, m2);
      if next.Fine? {
        m2 := m2.(pos := next.pos);
      }
    } else {
      next := Halt(log, Termination, m.pos);
      RunStops(cfg, t, m, next);
    }
  }

  /** A state in which the closing bracket `c` is allowed. */
  predicate AllowsBracket(cfg: Config, s: State, c: byte) {
    if c == RIGHT_CURLY then
      s.ObjectInitial? || s.MemberValue? || (s.MemberDelimiter? && cfg.trailingCommas)
    else
      c == RIGHT_BRACKET && (s.ArrayInitial? || s.Element? || (s.ElementDelimiter? && cfg.trailingCommas))
  }

  lemma NextCloses(cfg: Config, t: bytes, m: Machine, outer: seq<Frame>, top: Frame)
    requires m.pos < |t| && AllowsBracket(cfg, m.state, t[m.pos]) && m.frames == outer + [top]
    ensures var c := if m.state.MemberValue? || m.state.Element? then Next32(top.count) else top.count;
      var e := if InObject(m.state) then EndObject(c) else EndArray(c);
      Next(cfg, t, m) == Continue(Emit(cfg, m.log, e, m.pos + 1, m.pos), Restored(top.ret), outer)
  {
    assert Top(m.frames) == top && Popped(m.frames) == outer;
  }

  predicate AfterComma(s: State) {
    s.MemberDelimiter? || s.ElementDelimiter?
  }

  /** A closing bracket ends the container; the recursive parser has taken it unless it follows a trailing comma. */
  lemma CloseNow(cfg: Config, t: bytes, m: Machine, outer: seq<Frame>, top: Frame, e: Event, offset: nat)
    requires m.pos < |t| && AllowsBracket(cfg, m.state, t[m.pos]) && m.frames == outer + [top]
    requires var c := if m.state.MemberValue? || m.state.Element? then Next32(top.count) else top.count;
      e == if InObject(m.state) then EndObject(c) else EndArray(c)
    requires offset == if AfterComma(m.state) then m.pos else m.pos + 1
    ensures Simulates(cfg, t, m, Emit(cfg, m.log, e, m.pos + 1, offset), Restored(top.ret), outer)
  {
    NextCloses(cfg, t, m, outer, top);
    var o := Emit(cfg, m.log, e, m.pos + 1, m.pos);
    if o.Fine? {
      RunGoes(cfg, t, m, Machine(Restored(top.ret), o.pos, outer, o.log));
    } else {
      RunStops(cfg, t, m, o);
    }
  }

  /** The machine is in such a state only just after a comma. */
  lemma OnlyAfterComma(cfg: Config, t: bytes, m: Machine, next: Machine)
    requires Nested(m) && m.pos < |t| && Next(cfg, t, m) == Go(next) && AfterComma(next.state)
    ensures t[m.pos] == COMMA && next.pos == m.pos + 1
  {
    NoneReturnsAfterComma(m.frames, Containers(m.log));
    if Predict(m.state, Tokenize(t[m.pos])).MemberDelimiter? || Predict(m.state, Tokenize(t[m.pos])).ElementDelimiter? {
      CommaToken(m.state, t[m.pos]);
    }
  }

  lemma NoneReturnsAfterComma(frames: seq<Frame>, open: seq<bool>)
    requires Fits(frames, open)
    ensures !AfterComma(Restored(Top(frames).ret))
  {
  }

  lemma CommaToken(s: State, c: byte)
    requires AfterComma(Predict(s, Tokenize(c)))
    ensures c == COMMA
  {
  }

  // ---------------------------------------------------------------- Commas

  lemma NextCounts(cfg: Config, t: bytes, m: Machine, outer: seq<Frame>, top: Frame)
    requires m.pos < |t| && t[m.pos] == COMMA && (m.state.MemberValue? || m.state.Element?)
    requires m.frames == outer + [top]
    ensures Next(cfg, t, m) == Go(Machine(if m.state.MemberValue? then MemberDelimiter else ElementDelimiter,
      m.pos + 1, outer + [top.(count := Next32(top.count))], m.log))
  {
    assert Top(m.frames) == top && Popped(m.frames) == outer;
  }

  /** A comma and the white space after it. */
  lemma RunCounts(cfg: Config, t: bytes, m: Machine, outer: seq<Frame>, top: Frame)
    returns (next: Outcome, m2: Machine)
    requires m.pos < |t| && t[m.pos] == COMMA && (m.state.MemberValue? || m.state.Element?)
    requires m.frames == outer + [top]
    ensures next == Blank(cfg, t, m.pos + 1, m.log)
    ensures next.Halt? ==> Run(cfg, t, m) == next
    ensures next.Fine? ==>
      && m.pos < m2.pos <= |t|
      && m2 == Machine(if m.state.MemberValue? then MemberDelimiter else ElementDelimiter, next.pos,
                       outer + [top.(count := Next32(top.count))], m.log)
      && RunsLike(cfg, t, m, m2)
  {
    NextCounts(cfg, t, m, outer, top);
    m2 := Machine(if m.state.MemberValue? then MemberDelimiter else ElementDelimiter, m.pos + 1,
      outer + [top.(count := Next32(top.count))], m.log);
    next := Advance(cfg, t, m, m2);
    if next.Fine? {
      m2 := m2.(pos := next.pos);
    }
  }

  lemma NoCommaOrBracket(cfg: Config, t: bytes, m: Machine)
    requires m.pos <= |t| && (m.state.MemberValue? || m.state.Element?)
    requires Peek(t, m.pos) != COMMA && !AllowsBracket(cfg, m.state, Peek(t, m.pos))
    ensures Run(cfg, t, m) == Halt(m.log, ErrorIn(m.state), m.pos)
  {
  }

  // ---------------------------------------------------------------- Objects

  /** What the recursive parser does after the opening bracket and white space. */
  ghost function InsideObject(cfg: Config, t: bytes, p: nat, log: seq<Event>): Outcome
    requires p <= |t|
  {
    if Peek(t, p) == RIGHT_CURLY then Emit(cfg, log, EndObject(0), p + 1, p + 1) else Descent.Members(cfg, t, p, log, 0)
  }

  lemma ObjectIs(cfg: Config, t: bytes, p: nat, log: seq<Event>)
    requires p < |t|
    ensures var log' := log + [StartObject];
      var next := Blank(cfg, t, p + 1, log');
      Descent.Object(cfg, t, p, log) ==
        if !cfg.accepts(log') then Halt(log', Termination, p + 1)
        else if next.Halt? then next
        else InsideObject(cfg, t, next.pos, log')
  {
  }

  lemma {:induction false} SimulateInsideObject(cfg: Config, t: bytes, m: Machine, outer: seq<Frame>, top: Frame)
    requires m.pos <= |t| && m.state.ObjectInitial? && m.frames == outer + [top] && top.count == 0
    ensures Simulates(cfg, t, m, InsideObject(cfg, t, m.pos, m.log), Restored(top.ret), outer)
    decreases |t| - m.pos, 5
  {
    if Peek(t, m.pos) == RIGHT_CURLY {
      CloseNow(cfg, t, m, outer, top, EndObject(0), m.pos + 1);
    } else {
      SimulateMembers(cfg, t, m, outer, top);
    }
  }

  lemma {:induction false} SimulateObject(cfg: Config, t: bytes, m: Machine)
    requires m.pos < |t| && t[m.pos] == LEFT_CURLY && AwaitsValue(cfg, m.state, LEFT_CURLY)
    ensures Simulates(cfg, t, m, Descent.Object(cfg, t, m.pos, m.log), AfterValue(m.state), m.frames)
    decreases |t| - m.pos, 1
  {
    ObjectIs(cfg, t, m.pos, m.log);
    var next, m2 := RunOpens(cfg, t, m, true);
    if next.Fine? {
      SimulateInsideObject(cfg, t, m2, m.frames, Frame(ReturnState(m.state), 0));
      Through(cfg, t, m, m2, InsideObject(cfg, t, m2.pos, m2.log), AfterValue(m.state), m.frames);
    }
  }

  lemma NextName(cfg: Config, t: bytes, m: Machine)
    requires m.pos < |t| && t[m.pos] == QUOTE && AwaitsMember(cfg, m.state, QUOTE)
    ensures Next(cfg, t, m) == Continue(Descent.Quote(cfg, t, m.pos, true, m.log), MemberKey, m.frames)
  {
  }

  lemma NoName(cfg: Config, t: bytes, m: Machine)
    requires m.pos <= |t| && Peek(t, m.pos) != QUOTE && AwaitsMember(cfg, m.state, Peek(t, m.pos))
    ensures Run(cfg, t, m) == Halt(m.log, ObjectMissName, m.pos)
  {
  }

  lemma MembersIs(cfg: Config, t: bytes, p: nat, log: seq<Event>, count: nat)
    requires p < |t| && t[p] == QUOTE
    ensures var name := Descent.Quote(cfg, t, p, true, log);
      Descent.Members(cfg, t, p, log, count) ==
        if name.Halt? then name else Descent.AfterName(cfg, t, name.pos, name.log, count)
  {
  }

  lemma {:induction false} SimulateMembers(cfg: Config, t: bytes, m: Machine, outer: seq<Frame>, top: Frame)
    requires m.pos <= |t| && AwaitsMember(cfg, m.state, Peek(t, m.pos)) && m.frames == outer + [top]
    ensures Simulates(cfg, t, m, Descent.Members(cfg, t, m.pos, m.log, top.count), Restored(top.ret), outer)
    decreases |t| - m.pos, 0
  {
    if Peek(t, m.pos) != QUOTE {
      NoName(cfg, t, m);
    } else {
      NextName(cfg, t, m);
      MembersIs(cfg, t, m.pos, m.log, top.count);
      var name := Descent.Quote(cfg, t, m.pos, true, m.log);
      if name.Halt? {
        QuoteRefused(cfg, t, m.pos, true, m.log, m.state);
        RunStops(cfg, t, m, name);
      } else {
        var m1 := Machine(MemberKey, name.pos, m.frames, name.log);
        var next := Advance(cfg, t, m, m1);
        if next.Fine? {
          var m2 := m1.(pos := next.pos);
          SimulateColon(cfg, t, m2, outer, top);
          Through(cfg, t, m, m2, Descent.AtColon(cfg, t, m2.pos, m2.log, top.count), Restored(top.ret), outer);
        }
      }
    }
  }

  lemma NoColon(cfg: Config, t: bytes, m: Machine)
    requires m.pos <= |t| && m.state.MemberKey? && Peek(t, m.pos) != COLON
    ensures Run(cfg, t, m) == Halt(m.log, ObjectMissColon, m.pos)
  {
  }

  lemma NextColon(cfg: Config, t: bytes, m: Machine)
    requires m.pos < |t| && m.state.MemberKey? && t[m.pos] == COLON
    ensures Next(cfg, t, m) == Go(m.(state := KeyValueDelimiter, pos := m.pos + 1))
  {
  }

  lemma {:induction false} SimulateColon(cfg: Config, t: bytes, m: Machine, outer: seq<Frame>, top: Frame)
    requires m.pos <= |t| && m.state.MemberKey? && m.frames == outer + [top]
    ensures Simulates(cfg, t, m, Descent.AtColon(cfg, t, m.pos, m.log, top.count), Restored(top.ret), outer)
    decreases |t| - m.pos, 5
  {
    if Peek(t, m.pos) != COLON {
      NoColon(cfg, t, m);
    } else {
      NextColon(cfg, t, m);
      var next := Advance(cfg, t, m, m.(state := KeyValueDelimiter, pos := m.pos + 1));
      ColonIs(cfg, t, m.pos, m.log, top.count, next);
      if next.Fine? {
        SimulateAfterColon(cfg, t, m, m.(state := KeyValueDelimiter, pos := next.pos), outer, top);
      }
    }
  }

  lemma ColonIs(cfg: Config, t: bytes, p: nat, log: seq<Event>, count: nat, next: Outcome)
    requires p < |t| && t[p] == COLON && next == Blank(cfg, t, p + 1, log)
    ensures next.Halt? ==> Descent.AtColon(cfg, t, p, log, count) == next
    ensures next.Fine? ==> next.pos <= |t| && next.log == log
    ensures next.Fine? ==> Descent.AtColon(cfg, t, p, log, count) == Descent.MemberTail(cfg, t, next.pos, log, count)
  {
  }

  lemma {:induction false} SimulateAfterColon(
    cfg: Config, t: bytes, m: Machine, m2: Machine, outer: seq<Frame>, top: Frame)
    requires m.pos < m2.pos <= |t| && m2.state.KeyValueDelimiter? && m2.frames == outer + [top]
    requires RunsLike(cfg, t, m, m2)
    ensures Simulates(cfg, t, m, Descent.MemberTail(cfg, t, m2.pos, m2.log, top.count), Restored(top.ret), outer)
    decreases |t| - m2.pos, 7
  {
    SimulateMemberTail(cfg, t, m2, outer, top);
    Through(cfg, t, m, m2, Descent.MemberTail(cfg, t, m2.pos, m2.log, top.count), Restored(top.ret), outer);
  }

  lemma {:induction false} SimulateMemberTail(cfg: Config, t: bytes, m: Machine, outer: seq<Frame>, top: Frame)
    requires m.pos <= |t| && m.state.KeyValueDelimiter? && m.frames == outer + [top]
    ensures Simulates(cfg, t, m, Descent.MemberTail(cfg, t, m.pos, m.log, top.count), Restored(top.ret), outer)
    decreases |t| - m.pos, 6
  {
    SimulateValue(cfg, t, m);
    var value := Descent.Value(cfg, t, m.pos, m.log);
    if value.Fine? {
      var m1 := Machine(MemberValue, value.pos, m.frames, value.log);
      ResumeBlank(cfg, t, m1);
      var after := Blank(cfg, t, m1.pos, m1.log);
      if after.Fine? {
        SimulateAfterMember(cfg, t, m1.(pos := after.pos), outer, top);
      }
    }
  }

  /** What the recursive parser does after a comma and white space. */
  ghost function NextMember(cfg: Config, t: bytes, p: nat, log: seq<Event>, count: nat): Outcome
    requires p <= |t|
  {
    if cfg.trailingCommas && Peek(t, p) == RIGHT_CURLY then Emit(cfg, log, EndObject(count), p + 1, p)
    else Descent.Members(cfg, t, p, log, count)
  }

  lemma AfterMemberComma(cfg: Config, t: bytes, p: nat, log: seq<Event>, count: nat)
    requires p <= |t| && Peek(t, p) == COMMA
    ensures var next := Blank(cfg, t, p + 1, log);
      Descent.AfterMember(cfg, t, p, log, count) ==
        if next.Halt? then next else NextMember(cfg, t, next.pos, log, count)
  {
  }

  lemma AfterMemberNoComma(cfg: Config, t: bytes, p: nat, log: seq<Event>, count: nat)
    requires p <= |t| && Peek(t, p) != COMMA
    ensures Descent.AfterMember(cfg, t, p, log, count) ==
      if Peek(t, p) == RIGHT_CURLY then Emit(cfg, log, EndObject(count), p + 1, p + 1)
      else Halt(log, ObjectMissCommaOrCurlyBracket, p)
  {
  }

  lemma {:induction false} SimulateNextMember(cfg: Config, t: bytes, m: Machine, outer: seq<Frame>, top: Frame)
    requires m.pos <= |t| && m.state.MemberDelimiter? && m.frames == outer + [top]
    ensures Simulates(cfg, t, m, NextMember(cfg, t, m.pos, m.log, top.count), Restored(top.ret), outer)
    decreases |t| - m.pos, 5
  {
    if cfg.trailingCommas && Peek(t, m.pos) == RIGHT_CURLY {
      CloseNow(cfg, t, m, outer, top, EndObject(top.count), m.pos);
    } else {
      SimulateMembers(cfg, t, m, outer, top);
    }
  }

  lemma {:induction false} SimulateCommaMember(cfg: Config, t: bytes, m: Machine, outer: seq<Frame>, top: Frame)
    requires m.pos < |t| && t[m.pos] == COMMA && m.state.MemberValue? && m.frames == outer + [top]
    ensures Simulates(cfg, t, m, Descent.AfterMember(cfg, t, m.pos, m.log, Next32(top.count)),
      Restored(top.ret), outer)
    decreases |t| - m.pos, 3
  {
    var count := Next32(top.count);
    AfterMemberComma(cfg, t, m.pos, m.log, count);
    var next, m2 := RunCounts(cfg, t, m, outer, top);
    if next.Fine? {
      SimulateNextMember(cfg, t, m2, outer, top.(count := count));
      Through(cfg, t, m, m2, NextMember(cfg, t, m2.pos, m2.log, count), Restored(top.ret), outer);
    }
  }

  lemma {:induction false} SimulateAfterMember(cfg: Config, t: bytes, m: Machine, outer: seq<Frame>, top: Frame)
    requires m.pos <= |t| && m.state.MemberValue? && m.frames == outer + [top]
    ensures Simulates(cfg, t, m, Descent.AfterMember(cfg, t, m.pos, m.log, Next32(top.count)),
      Restored(top.ret), outer)
    decreases |t| - m.pos, 4
  {
    var c := Peek(t, m.pos);
    if c == COMMA {
      SimulateCommaMember(cfg, t, m, outer, top);
    } else {
      AfterMemberNoComma(cfg, t, m.pos, m.log, Next32(top.count));
      if c == RIGHT_CURLY {
        CloseNow(cfg, t, m, outer, top, EndObject(Next32(top.count)), m.pos + 1);
      } else {
        NoCommaOrBracket(cfg, t, m);
      }
    }
  }

  // ---------------------------------------------------------------- Arrays

  /** What the recursive parser does after the opening bracket and white space. */
  ghost function InsideArray(cfg: Config, t: bytes, p: nat, log: seq<Event>): Outcome
    requires p <= |t|
  {
    if Peek(t, p) == RIGHT_BRACKET then Emit(cfg, log, EndArray(0), p + 1, p + 1)
    else Descent.Elements(cfg, t, p, log, 0)
  }

  lemma ArrayIs(cfg: Config, t: bytes, p: nat, log: seq<Event>)
    requires p < |t|
    ensures var log' := log + [StartArray];
      var next := Blank(cfg, t, p + 1, log');
      Descent.Array(cfg, t, p, log) ==
        if !cfg.accepts(log') then Halt(log', Termination, p + 1)
        else if next.Halt? then next
        else InsideArray(cfg, t, next.pos, log')
  {
  }

  lemma {:induction false} SimulateInsideArray(cfg: Config, t: bytes, m: Machine, outer: seq<Frame>, top: Frame)
    requires m.pos <= |t| && m.state.ArrayInitial? && m.frames == outer + [top] && top.count == 0
    ensures Simulates(cfg, t, m, InsideArray(cfg, t, m.pos, m.log), Restored(top.ret), outer)
    decreases |t| - m.pos, 5
  {
    if Peek(t, m.pos) == RIGHT_BRACKET {
      CloseNow(cfg, t, m, outer, top, EndArray(0), m.pos + 1);
    } else {
      SimulateElements(cfg, t, m, outer, top);
    }
  }

  lemma {:induction false} SimulateArray(cfg: Config, t: bytes, m: Machine)
    requires m.pos < |t| && t[m.pos] == LEFT_BRACKET && AwaitsValue(cfg, m.state, LEFT_BRACKET)
    ensures Simulates(cfg, t, m, Descent.Array(cfg, t, m.pos, m.log), AfterValue(m.state), m.frames)
    decreases |t| - m.pos, 1
  {
    ArrayIs(cfg, t, m.pos, m.log);
    var next, m2 := RunOpens(cfg, t, m, false);
    if next.Fine? {
      SimulateInsideArray(cfg, t, m2, m.frames, Frame(ReturnState(m.state), 0));
      Through(cfg, t, m, m2, InsideArray(cfg, t, m2.pos, m2.log), AfterValue(m.state), m.frames);
    }
  }

  lemma {:induction false} SimulateElements(cfg: Config, t: bytes, m: Machine, outer: seq<Frame>, top: Frame)
    requires m.pos <= |t| && AwaitsValue(cfg, m.state, Peek(t, m.pos)) && InArray(m.state)
    requires m.frames == outer + [top]
    ensures Simulates(cfg, t, m, Descent.Elements(cfg, t, m.pos, m.log, top.count), Restored(top.ret), outer)
    decreases |t| - m.pos, 4
  {
    SimulateValue(cfg, t, m);
    var value := Descent.Value(cfg, t, m.pos, m.log);
    if value.Fine? {
      var m1 := Machine(Element, value.pos, m.frames, value.log);
      ResumeBlank(cfg, t, m1);
      var after := Blank(cfg, t, m1.pos, m1.log);
      if after.Fine? {
        SimulateAfterElement(cfg, t, m1.(pos := after.pos), outer, top);
      }
    }
  }

  /** What the recursive parser does after a comma and white space. */
  ghost function NextElement(cfg: Config, t: bytes, p: nat, log: seq<Event>, count: nat): Outcome
    requires p <= |t|
  {
    if cfg.trailingCommas && Peek(t, p) == RIGHT_BRACKET then Emit(cfg, log, EndArray(count), p + 1, p)
    else Descent.Elements(cfg, t, p, log, count)
  }

  lemma AfterElementComma(cfg: Config, t: bytes, p: nat, log: seq<Event>, count: nat)
    requires p <= |t| && Peek(t, p) == COMMA
    ensures var next := Blank(cfg, t, p + 1, log);
      Descent.AfterElement(cfg, t, p, log, count) ==
        if next.Halt? then next else NextElement(cfg, t, next.pos, log, count)
  {
  }

  lemma AfterElementNoComma(cfg: Config, t: bytes, p: nat, log: seq<Event>, count: nat)
    requires p <= |t| && Peek(t, p) != COMMA
    ensures Descent.AfterElement(cfg, t, p, log, count) ==
      if Peek(t, p) == RIGHT_BRACKET then Emit(cfg, log, EndArray(count), p + 1, p + 1)
      else Halt(log, ArrayMissCommaOrSquareBracket, p)
  {
  }

  lemma {:induction false} SimulateNextElement(cfg: Config, t: bytes, m: Machine, outer: seq<Frame>, top: Frame)
    requires m.pos <= |t| && m.state.ElementDelimiter? && m.frames == outer + [top]
    ensures Simulates(cfg, t, m, NextElement(cfg, t, m.pos, m.log, top.count), Restored(top.ret), outer)
    decreases |t| - m.pos, 5
  {
    if cfg.trailingCommas && Peek(t, m.pos) == RIGHT_BRACKET {
      CloseNow(cfg, t, m, outer, top, EndArray(top.count), m.pos);
    } else {
      SimulateElements(cfg, t, m, outer, top);
    }
  }

  lemma {:induction false} SimulateCommaElement(cfg: Config, t: bytes, m: Machine, outer: seq<Frame>, top: Frame)
    requires m.pos < |t| && t[m.pos] == COMMA && m.state.Element? && m.frames == outer + [top]
    ensures Simulates(cfg, t, m, Descent.AfterElement(cfg, t, m.pos, m.log, Next32(top.count)),
      Restored(top.ret), outer)
    decreases |t| - m.pos, 3
  {
    var count := Next32(top.count);
    AfterElementComma(cfg, t, m.pos, m.log, count);
    var next, m2 := RunCounts(cfg, t, m, outer, top);
    if next.Fine? {
      SimulateNextElement(cfg, t, m2, outer, top.(count := count));
      Through(cfg, t, m, m2, NextElement(cfg, t, m2.pos, m2.log, count), Restored(top.ret), outer);
    }
  }

  lemma {:induction false} SimulateAfterElement(cfg: Config, t: bytes, m: Machine, outer: seq<Frame>, top: Frame)
    requires m.pos <= |t| && m.state.Element? && m.frames == outer + [top]
    ensures Simulates(cfg, t, m, Descent.AfterElement(cfg, t, m.pos, m.log, Next32(top.count)),
      Restored(top.ret), outer)
    decreases |t| - m.pos, 4
  {
    var c := Peek(t, m.pos);
    if c == COMMA {
      SimulateCommaElement(cfg, t, m, outer, top);
    } else {
      AfterElementNoComma(cfg, t, m.pos, m.log, Next32(top.count));
      if c == RIGHT_BRACKET {
        CloseNow(cfg, t, m, outer, top, EndArray(Next32(top.count)), m.pos + 1);
      } else {
        NoCommaOrBracket(cfg, t, m);
      }
    }
  }

  // ---------------------------------------------------------------- The whole text

  /** The first character that is not white space or comment, when skipping succeeds. */
  function FirstCharacter(cfg: Config, t: bytes): byte {
    var start := Blank(cfg, t, 0, []);
    if start.Fine? then Peek(t, start.pos) else 0
  }

  /** The state in which the machine ends its run over a text. */
  ghost function LastState(cfg: Config, t: bytes): State {
    var start := Blank(cfg, t, 0, []);
    if start.Fine? then Final(cfg, t, Machine(Start, start.pos, [], [])).state else Start
  }

  /** On every text the two parsers agree, but for the error code of a text that starts with punctuation. */
  lemma ParsersAgree(cfg: Config, t: bytes)
    ensures if IsPunctuation(FirstCharacter(cfg, t)) then
        var p := Blank(cfg, t, 0, []).pos;
        && Descent.Parse(cfg, t) == Halt([], ValueInvalid, p)
        && Parse(cfg, t) == Halt([], DocumentEmpty, p)
      else
        Agree(Descent.Parse(cfg, t), Parse(cfg, t), LastState(cfg, t))
  {
    var start := Blank(cfg, t, 0, []);
    if start.Fine? {
      var m := Machine(Start, start.pos, [], []);
      var c := Peek(t, start.pos);
      if IsPunctuation(c) {
        PunctuationIsNoValue(cfg, t, start.pos, []);
        RunStops(cfg, t, m, Halt([], DocumentEmpty, start.pos));
      } else if c != 0 {
        SimulateValue(cfg, t, m);
        var value := Descent.Value(cfg, t, m.pos, m.log);
        if value.Fine? {
          RootAgrees(cfg, t, Machine(Finish, value.pos, [], value.log), LastState(cfg, t));
        }
      }
    }
  }

  lemma RootAgrees(cfg: Config, t: bytes, m: Machine, last: State)
    requires m.pos <= |t| && m.state.Finish?
    ensures Agree(Descent.Root(cfg, t, m.pos, m.log), Resume(cfg, t, m), last)
  {
    if !cfg.stopWhenDone {
      var end := Blank(cfg, t, m.pos, m.log);
      if end.Fine? && Peek(t, end.pos) != 0 {
        RunStops(cfg, t, m.(pos := end.pos), Halt(m.log, DocumentRootNotSingular, end.pos));
      }
    }
  }

  /** Both parsers report an error at one place exactly when it is not the refusal of a bracket taken first. */
  lemma OffsetsAgreeExactly(cfg: Config, t: bytes)
    requires Descent.Parse(cfg, t).Halt?
    ensures var r, i := Descent.Parse(cfg, t), Parse(cfg, t);
      && i.Halt?
      && (r.offset == i.offset <==> !(r.code == Termination && TakenFirst(r.log, LastState(cfg, t))))
      && (r.offset != i.offset ==> r.offset == i.offset + 1)
  {
    ParsersAgree(cfg, t);
  }

  /** Only a refused event ends a parse with the code for a refusal. */
  predicate RefusedByHandler(cfg: Config, o: Outcome) {
    o.Halt? && o.code == Termination ==> !cfg.accepts(o.log)
  }

  lemma QuoteByHandler(cfg: Config, t: bytes, p: nat, isKey: bool, log: seq<Event>)
    requires p < |t|
    ensures RefusedByHandler(cfg, Descent.Quote(cfg, t, p, isKey, log))
  {
    Strings.BadIsNoRefusal(t, p + 1, []);
  }

  lemma NumberByHandler(cfg: Config, t: bytes, p: nat, log: seq<Event>)
    requires p <= |t|
    ensures RefusedByHandler(cfg, Numbers.Number(cfg, t, p, log))
  {
  }

  lemma ScalarByHandler(cfg: Config, t: bytes, p: nat, log: seq<Event>)
    requires p < |t|
    ensures RefusedByHandler(cfg, Descent.Scalar(cfg, t, p, log))
  {
    QuoteByHandler(cfg, t, p, false, log);
    NumberByHandler(cfg, t, p, log);
  }

  lemma LeafByHandler(cfg: Config, t: bytes, m: Machine)
    requires m.pos < |t| && IsLeafState(Predict(m.state, Tokenize(t[m.pos]))) && Next(cfg, t, m).Stop?
    ensures RefusedByHandler(cfg, Next(cfg, t, m).o)
  {
    if Predict(m.state, Tokenize(t[m.pos])).MemberKey? {
      QuoteByHandler(cfg, t, m.pos, true, m.log);
    } else {
      ScalarByHandler(cfg, t, m.pos, m.log);
    }
  }

  lemma NextRefused(cfg: Config, t: bytes, m: Machine)
    requires m.pos < |t| && Next(cfg, t, m).Stop?
    ensures RefusedByHandler(cfg, Next(cfg, t, m).o)
  {
    if IsLeafState(Predict(m.state, Tokenize(t[m.pos]))) {
      LeafByHandler(cfg, t, m);
    }
  }

  lemma {:induction false} RunRefused(cfg: Config, t: bytes, m: Machine)
    requires m.pos <= |t|
    ensures RefusedByHandler(cfg, Run(cfg, t, m))
    decreases |t| - m.pos
  {
    if Peek(t, m.pos) != 0 {
      match Next(cfg, t, m)
      case Stop(o) =>
        RunStops(cfg, t, m, o);
        NextRefused(cfg, t, m);
      case Go(next) =>
        RunGoes(cfg, t, m, next);
        var blank := Blank(cfg, t, next.pos, next.log);
        if blank.Fine? && !(cfg.stopWhenDone && next.state == Finish) {
          RunRefused(cfg, t, next.(pos := blank.pos));
        }
    }
  }

  ghost predicate EndsInBracket(log: seq<Event>) {
    log != [] &&
    var e := log[|log| - 1];
    e.StartObject? || e.StartArray? || e.EndObject? || e.EndArray?
  }

  /** With a handler that never refuses a bracket both parsers report every error at one place. */
  lemma BracketsAcceptedOffsetsAgree(cfg: Config, t: bytes)
    requires forall log: seq<Event> | EndsInBracket(log) :: cfg.accepts(log)
    ensures var r, i := Descent.Parse(cfg, t), Parse(cfg, t);
      (r.Halt? <==> i.Halt?) && (r.Halt? ==> r.offset == i.offset && r.log == i.log)
  {
    ParsersAgree(cfg, t);
    var start := Blank(cfg, t, 0, []);
    if start.Fine? {
      RunRefused(cfg, t, Machine(Start, start.pos, [], start.log));
    }
  }

  /** A handler that refuses everything is told of an opening bracket before and after it is taken. */
  lemma RefusedBracket(cfg: Config)
    requires forall log :: !cfg.accepts(log)
    ensures Descent.Parse(cfg, [LEFT_BRACKET]) == Halt([StartArray], Termination, 1)
    ensures Parse(cfg, [LEFT_BRACKET]) == Halt([StartArray], Termination, 0)
  {
    var t: bytes := [LEFT_BRACKET];
    assert Blank(cfg, t, 0, []) == Fine(0, []);
    var m := Machine(Start, 0, [], []);
    assert [] + [StartArray] == [StartArray];
    ValueIsContainer(cfg, t, 0, []);
    ArrayIs(cfg, t, 0, []);
    RunStops(cfg, t, m, Halt([StartArray], Termination, 0));
  }
}
