/** The table-driven parser: states, tokens, the transition table and the machine that runs it. */
module Pushdown {
  import opened Bytes
  import opened Sax
  import opened Descent

  datatype State =
    | Finish
    | Error
    | Start
    | ObjectInitial
    | MemberKey
    | MemberValue
    | ObjectFinish
    | ArrayInitial
    | Element
    | ArrayFinish
    | SingleValue
    | ElementDelimiter
    | MemberDelimiter
    | KeyValueDelimiter

  datatype Token =
    | LeftBracketToken
    | RightBracketToken
    | LeftCurlyToken
    | RightCurlyToken
    | CommaToken
    | ColonToken
    | StringToken
    | FalseToken
    | TrueToken
    | NullToken
    | NumberToken

  function Tokenize(c: byte): Token {
    if c == QUOTE then StringToken
    else if c == COMMA then CommaToken
    else if c == COLON then ColonToken
    else if c == LEFT_BRACKET then LeftBracketToken
    else if c == RIGHT_BRACKET then RightBracketToken
    else if c == LETTER_F then FalseToken
    else if c == LETTER_N then NullToken
    else if c == LETTER_T then TrueToken
    else if c == LEFT_CURLY then LeftCurlyToken
    else if c == RIGHT_CURLY then RightCurlyToken
    else NumberToken
  }

  predicate IsScalarToken(k: Token) {
    k.StringToken? || k.FalseToken? || k.TrueToken? || k.NullToken? || k.NumberToken?
  }

  /** The row of the table for states that expect a value and enter `scalar` on one that is not compound. */
  function ExpectValue(k: Token, scalar: State): State {
    if k.LeftBracketToken? then ArrayInitial
    else if k.LeftCurlyToken? then ObjectInitial
    else if IsScalarToken(k) then scalar
    else Error
  }

  /** The transition table: current state and one lookahead token give the candidate state. */
  function Predict(s: State, k: Token): State {
    match s
    case Start => ExpectValue(k, SingleValue)
    case ObjectInitial => if k.RightCurlyToken? then ObjectFinish else if k.StringToken? then MemberKey else Error
    case MemberKey => if k.ColonToken? then KeyValueDelimiter else Error
    case MemberValue => if k.RightCurlyToken? then ObjectFinish else if k.CommaToken? then MemberDelimiter else Error
    case ArrayInitial => if k.RightBracketToken? then ArrayFinish else ExpectValue(k, Element)
    case Element => if k.RightBracketToken? then ArrayFinish else if k.CommaToken? then ElementDelimiter else Error
    case ElementDelimiter => if k.RightBracketToken? then ArrayFinish else ExpectValue(k, Element)
    case MemberDelimiter => if k.RightCurlyToken? then ObjectFinish else if k.StringToken? then MemberKey else Error
    case KeyValueDelimiter => ExpectValue(k, MemberValue)
    case _ => Error
  }

  /** The error reported when the state allows no transition. */
  function ErrorIn(s: State): ErrorCode {
    match s
    case Start => DocumentEmpty
    case Finish => DocumentRootNotSingular
    case ObjectInitial => ObjectMissName
    case MemberDelimiter => ObjectMissName
    case MemberKey => ObjectMissColon
    case MemberValue => ObjectMissCommaOrCurlyBracket
    case KeyValueDelimiter => ValueInvalid
    case ArrayInitial => ValueInvalid
    case ElementDelimiter => ValueInvalid
    case _ => ArrayMissCommaOrSquareBracket
  }

  /** One open container: the state to restore at its end and the commas seen in it. */
  datatype Frame = Frame(ret: State, count: nat)

  /** The state a nested container returns to. */
  function ReturnState(src: State): State {
    if src == ArrayInitial || src == ElementDelimiter then Element
    else if src == KeyValueDelimiter then MemberValue
    else src
  }

  function Restored(ret: State): State {
    if ret == Start then Finish else ret
  }

  datatype Machine = Machine(state: State, pos: nat, frames: seq<Frame>, log: seq<Event>)

  predicate InObject(s: State) {
    s.ObjectInitial? || s.MemberKey? || s.MemberValue? || s.MemberDelimiter? || s.KeyValueDelimiter?
  }

  predicate InArray(s: State) {
    s.ArrayInitial? || s.Element? || s.ElementDelimiter?
  }

  /** The next machine, or the outcome that stops the run. */
  datatype Turn = Go(m: Machine) | Stop(o: Outcome)

  /** What a handled part of the text leads to. */
  function Continue(o: Outcome, s: State, frames: seq<Frame>): Turn {
    if o.Fine? then Go(Machine(s, o.pos, frames, o.log)) else Stop(o)
  }

  /** Opens a container and pushes its frame. */
  function Open(cfg: Config, m: Machine, dst: State): Turn {
    var e := if dst.ObjectInitial? then StartObject else StartArray;
    Continue(Emit(cfg, m.log, e, m.pos + 1, m.pos), dst, m.frames + [Frame(ReturnState(m.state), 0)])
  }

  /** The innermost frame; the stack is never empty inside a container. */
  function Top(frames: seq<Frame>): Frame {
    if frames == [] then Frame(Error, 0) else frames[|frames| - 1]
  }

  function Popped(frames: seq<Frame>): seq<Frame> {
    if frames == [] then [] else frames[..|frames| - 1]
  }

  /** A comma raises the count of the innermost container. */
  function Comma(m: Machine, dst: State): Turn {
    var frame := Top(m.frames);
    Go(Machine(dst, m.pos + 1, Popped(m.frames) + [frame.(count := Next32(frame.count))], m.log))
  }

  /** A closing bracket pops the innermost container and restores its return state. */
  function Close(cfg: Config, m: Machine): Turn {
    var count := Top(m.frames).count;
    var c := if m.state == MemberValue || m.state == Element then Next32(count) else count;
    var e := if InObject(m.state) then EndObject(c) else EndArray(c);
    Continue(Emit(cfg, m.log, e, m.pos + 1, m.pos), Restored(Top(m.frames).ret), Popped(m.frames))
  }

  /** One transition from a machine whose cursor is on a character. */
  function Next(cfg: Config, t: bytes, m: Machine): (turn: Turn)
    requires m.pos < |t|
    ensures turn.Go? ==> m.pos < turn.m.pos <= |t|
    ensures turn.Stop? ==> turn.o.Halt?
  {
    var p := m.pos;
    var dst := Predict(m.state, Tokenize(t[p]));
    match dst
    case ObjectInitial => Open(cfg, m, dst)
    case ArrayInitial => Open(cfg, m, dst)
    case MemberKey => Continue(Quote(cfg, t, p, true, m.log), dst, m.frames)
    case KeyValueDelimiter => Go(m.(state := dst, pos := p + 1))
    case MemberDelimiter => Comma(m, dst)
    case ElementDelimiter => Comma(m, dst)
    case ObjectFinish =>
      if !cfg.trailingCommas && m.state == MemberDelimiter then Stop(Halt(m.log, ObjectMissName, p)) else Close(cfg, m)
    case ArrayFinish =>
      if !cfg.trailingCommas && m.state == ElementDelimiter then Stop(Halt(m.log, ValueInvalid, p)) else Close(cfg, m)
    case Error => Stop(Halt(m.log, ErrorIn(m.state), p))
    case _ => Continue(Scalar(cfg, t, p, m.log), if dst == SingleValue then Finish else dst, m.frames)
  }

  /** Runs the machine from a position where white space has been skipped. */
  function Run(cfg: Config, t: bytes, m: Machine): (o: Outcome)
    requires m.pos <= |t|
    ensures o.Fine? ==> o.pos <= |t|
    decreases |t| - m.pos, 1
  {
    if Peek(t, m.pos) == 0 then
      if m.state == Finish then Fine(m.pos, m.log) else Halt(m.log, ErrorIn(m.state), m.pos)
    else
      Transit(cfg, t, m)
  }

  /** Makes one transition and goes on. */
  function Transit(cfg: Config, t: bytes, m: Machine): (o: Outcome)
    requires m.pos < |t|
    ensures o.Fine? ==> o.pos <= |t|
    decreases |t| - m.pos, 0
  {
    match Next(cfg, t, m)
    case Stop(o) => o
    case Go(next) => Resume(cfg, t, next)
  }

  /** Goes on after a transition: stops at a complete root when asked to, else skips white space. */
  function Resume(cfg: Config, t: bytes, m: Machine): (o: Outcome)
    requires m.pos <= |t|
    ensures o.Fine? ==> o.pos <= |t|
    decreases |t| - m.pos, 2
  {
    if cfg.stopWhenDone && m.state == Finish then
      Fine(m.pos, m.log)
    else
      var next :- Blank(cfg, t, m.pos, m.log);
      Run(cfg, t, m.(pos := next.pos))
  }

  function Parse(cfg: Config, t: bytes): Outcome {
    var start :- Blank(cfg, t, 0, []);
    Run(cfg, t, Machine(Start, start.pos, [], start.log))
  }

  /** The machine whose turn, or the white space after it, ended the run. */
  ghost function Final(cfg: Config, t: bytes, m: Machine): (f: Machine)
    requires m.pos <= |t|
    decreases |t| - m.pos, 1
  {
    if Peek(t, m.pos) == 0 then m else FinalTransit(cfg, t, m)
  }

  ghost function FinalTransit(cfg: Config, t: bytes, m: Machine): (f: Machine)
    requires m.pos < |t|
    decreases |t| - m.pos, 0
  {
    match Next(cfg, t, m)
    case Stop(_) => m
    case Go(next) => FinalResume(cfg, t, next)
  }

  ghost function FinalResume(cfg: Config, t: bytes, m: Machine): (f: Machine)
    requires m.pos <= |t|
    decreases |t| - m.pos, 2
  {
    var next := Blank(cfg, t, m.pos, m.log);
    if (cfg.stopWhenDone && m.state == Finish) || next.Halt? then m else Final(cfg, t, m.(pos := next.pos))
  }

  // ---------------------------------------------------------------- The stack invariant

  /** How one event changes the open containers. */
  ghost function Nest(open: seq<bool>, e: Event): seq<bool> {
    match e
    case StartObject => open + [true]
    case StartArray => open + [false]
    case EndObject(_) => if open == [] then [] else open[..|open| - 1]
    case EndArray(_) => if open == [] then [] else open[..|open| - 1]
    case _ => open
  }

  /** The containers a history has opened and not closed, outermost first; true stands for an object. */
  ghost function Containers(log: seq<Event>): seq<bool> {
    if log == [] then [] else Nest(Containers(log[..|log| - 1]), log[|log| - 1])
  }

  lemma ContainersAdd(log: seq<Event>, e: Event)
    ensures Containers(log + [e]) == Nest(Containers(log), e)
  {
    assert (log + [e])[..|log|] == log;
  }

  /** The state the innermost container returns to: it is set by the container around it. */
  ghost function StateAround(open: seq<bool>): State
    requires open != []
  {
    if |open| == 1 then Start else if open[|open| - 2] then MemberValue else Element
  }

  /** One frame for each open container, each returning to the state of the container around it. */
  ghost predicate Fits(frames: seq<Frame>, open: seq<bool>) {
    && |frames| == |open|
    && (open != [] ==>
          var n := |open|;
          frames[n - 1].ret == StateAround(open) && Fits(frames[..n - 1], open[..n - 1]))
  }

  /** The stack has one frame for each open container, and the state belongs to the innermost. */
  ghost predicate Matches(s: State, frames: seq<Frame>, open: seq<bool>) {
    && Fits(frames, open)
    && (InObject(s) ==> open != [] && open[|open| - 1])
    && (InArray(s) ==> open != [] && !open[|open| - 1])
    && (!InObject(s) && !InArray(s) ==> open == [] && (s.Start? || s.Finish?))
  }

  ghost predicate Nested(m: Machine) {
    Matches(m.state, m.frames, Containers(m.log))
  }

  /** A state in which a value may open a container. */
  predicate OpensValue(s: State) {
    s.Start? || s.ArrayInitial? || s.ElementDelimiter? || s.KeyValueDelimiter?
  }

  lemma OpenMatches(s: State, frames: seq<Frame>, open: seq<bool>, object_: bool)
    requires Matches(s, frames, open) && OpensValue(s)
    ensures Matches(if object_ then ObjectInitial else ArrayInitial, frames + [Frame(ReturnState(s), 0)],
      open + [object_])
  {
    var frames', open' := frames + [Frame(ReturnState(s), 0)], open + [object_];
    assert frames'[..|open|] == frames && open'[..|open|] == open;
    assert ReturnState(s) == StateAround(open');
    assert Fits(frames', open');
  }

  lemma CloseMatches(s: State, frames: seq<Frame>, open: seq<bool>)
    requires Matches(s, frames, open) && (InObject(s) || InArray(s))
    ensures frames != [] && open != []
    ensures Matches(Restored(Top(frames).ret), Popped(frames), open[..|open| - 1])
  {
  }

  lemma CommaMatches(s: State, frames: seq<Frame>, open: seq<bool>, dst: State, count: nat)
    requires Matches(s, frames, open)
    requires (InObject(s) && InObject(dst)) || (InArray(s) && InArray(dst))
    ensures frames != [] && Matches(dst, Popped(frames) + [Top(frames).(count := count)], open)
  {
    var frames' := Popped(frames) + [Top(frames).(count := count)];
    assert frames'[..|frames| - 1] == Popped(frames);
    assert Fits(frames', open);
  }

  predicate IsLeafState(s: State) {
    s.MemberKey? || s.MemberValue? || s.Element? || s.SingleValue?
  }

  lemma LeafTransit(cfg: Config, t: bytes, m: Machine) returns (o: Outcome)
    requires m.pos < |t| && IsLeafState(Predict(m.state, Tokenize(t[m.pos])))
    ensures AddsLeaf(m.log, o)
    ensures var dst := Predict(m.state, Tokenize(t[m.pos]));
      Next(cfg, t, m) == Continue(o, if dst.SingleValue? then Finish else dst, m.frames)
  {
    if Predict(m.state, Tokenize(t[m.pos])).MemberKey? {
      o := Quote(cfg, t, m.pos, true, m.log);
    } else {
      o := Scalar(cfg, t, m.pos, m.log);
    }
  }

  lemma LeafTransitNested(cfg: Config, t: bytes, m: Machine, next: Machine)
    requires Nested(m) && m.pos < |t| && IsLeafState(Predict(m.state, Tokenize(t[m.pos])))
    requires Next(cfg, t, m) == Go(next)
    ensures Nested(next)
  {
    var o := LeafTransit(cfg, t, m);
    LeafAddsNone(m.log, o);
    LeafMatches(m.state, Tokenize(t[m.pos]), m.frames, Containers(m.log));
  }

  lemma LeafAddsNone(log: seq<Event>, o: Outcome)
    requires AddsLeaf(log, o) && o.Fine?
    ensures Containers(o.log) == Containers(log)
  {
  }

  lemma LeafMatches(s: State, token: Token, frames: seq<Frame>, open: seq<bool>)
    requires Matches(s, frames, open) && IsLeafState(Predict(s, token))
    ensures Matches(if Predict(s, token).SingleValue? then Finish else Predict(s, token), frames, open)
  {
  }

  lemma CloseTransitNested(cfg: Config, t: bytes, m: Machine, next: Machine)
    requires Nested(m) && m.pos < |t|
    requires var dst := Predict(m.state, Tokenize(t[m.pos])); dst.ObjectFinish? || dst.ArrayFinish?
    requires Next(cfg, t, m) == Go(next)
    ensures Nested(next)
  {
    var e := CloseIs(cfg, t, m, next);
    ClosedNested(m.state, m.frames, m.log, e);
  }

  lemma CloseIs(cfg: Config, t: bytes, m: Machine, next: Machine) returns (e: Event)
    requires m.pos < |t|
    requires var dst := Predict(m.state, Tokenize(t[m.pos])); dst.ObjectFinish? || dst.ArrayFinish?
    requires Next(cfg, t, m) == Go(next)
    ensures (InObject(m.state) || InArray(m.state)) && (e.EndObject? || e.EndArray?)
    ensures next == Machine(Restored(Top(m.frames).ret), m.pos + 1, Popped(m.frames), m.log + [e])
  {
    assert Close(cfg, m) == Go(next);
    e := next.log[|m.log|];
  }

  lemma ClosedNested(s: State, frames: seq<Frame>, log: seq<Event>, e: Event)
    requires Matches(s, frames, Containers(log)) && (InObject(s) || InArray(s)) && (e.EndObject? || e.EndArray?)
    ensures Matches(Restored(Top(frames).ret), Popped(frames), Containers(log + [e]))
  {
    CloseMatches(s, frames, Containers(log));
    ContainersAdd(log, e);
  }

  lemma OpenTransitNested(cfg: Config, t: bytes, m: Machine, next: Machine)
    requires Nested(m) && m.pos < |t|
    requires var dst := Predict(m.state, Tokenize(t[m.pos])); dst.ObjectInitial? || dst.ArrayInitial?
    requires Next(cfg, t, m) == Go(next)
    ensures Nested(next)
  {
    var object_ := Predict(m.state, Tokenize(t[m.pos])).ObjectInitial?;
    OpenIs(cfg, t, m, next, object_);
    OpenedNested(m.state, m.frames, m.log, object_);
  }

  lemma OpenedNested(s: State, frames: seq<Frame>, log: seq<Event>, object_: bool)
    requires Matches(s, frames, Containers(log)) && OpensValue(s)
    ensures Matches(if object_ then ObjectInitial else ArrayInitial, frames + [Frame(ReturnState(s), 0)],
      Containers(log + [if object_ then StartObject else StartArray]))
  {
    OpenMatches(s, frames, Containers(log), object_);
    ContainersAdd(log, if object_ then StartObject else StartArray);
    assert Nest(Containers(log), if object_ then StartObject else StartArray) == Containers(log) + [object_];
  }

  lemma OpenIs(cfg: Config, t: bytes, m: Machine, next: Machine, object_: bool)
    requires m.pos < |t| && Predict(m.state, Tokenize(t[m.pos])) == if object_ then ObjectInitial else ArrayInitial
    requires Next(cfg, t, m) == Go(next)
    ensures OpensValue(m.state)
    ensures next == Machine(if object_ then ObjectInitial else ArrayInitial, m.pos + 1,
      m.frames + [Frame(ReturnState(m.state), 0)], m.log + [if object_ then StartObject else StartArray])
  {
  }

  lemma DelimiterTransitNested(cfg: Config, t: bytes, m: Machine, next: Machine)
    requires Nested(m) && m.pos < |t|
    requires var dst := Predict(m.state, Tokenize(t[m.pos]));
      dst.MemberDelimiter? || dst.ElementDelimiter? || dst.KeyValueDelimiter?
    requires Next(cfg, t, m) == Go(next)
    ensures Nested(next)
  {
    if !next.state.KeyValueDelimiter? {
      CommaMatches(m.state, m.frames, Containers(m.log), next.state, Next32(Top(m.frames).count));
    }
  }

  /** Every transition keeps one frame for each open container. */
  lemma TransitNested(cfg: Config, t: bytes, m: Machine, next: Machine)
    requires Nested(m) && m.pos < |t| && Next(cfg, t, m) == Go(next)
    ensures Nested(next)
  {
    var dst := Predict(m.state, Tokenize(t[m.pos]));
    if IsLeafState(dst) {
      LeafTransitNested(cfg, t, m, next);
    } else if dst.ObjectFinish? || dst.ArrayFinish? {
      CloseTransitNested(cfg, t, m, next);
    } else if dst.ObjectInitial? || dst.ArrayInitial? {
      OpenTransitNested(cfg, t, m, next);
    } else {
      assert !dst.Error?;
      DelimiterTransitNested(cfg, t, m, next);
    }
  }

  /** The machine `m` and every machine after it satisfy the stack invariant. */
  ghost predicate NestedThroughout(cfg: Config, t: bytes, m: Machine)
    requires m.pos <= |t|
    decreases |t| - m.pos
  {
    && Nested(m)
    && (m.pos < |t| && t[m.pos] != 0 && Next(cfg, t, m).Go? ==>
          var next := Next(cfg, t, m).m;
          && Nested(next)
          && (Blank(cfg, t, next.pos, next.log).Fine? ==>
                NestedThroughout(cfg, t, next.(pos := Blank(cfg, t, next.pos, next.log).pos))))
  }

  /** Over a whole run the stack is exactly one frame for each container that the event history leaves open. */
  lemma {:induction false} StackMatchesHistory(cfg: Config, t: bytes, m: Machine)
    requires m.pos <= |t| && Nested(m)
    ensures NestedThroughout(cfg, t, m)
    decreases |t| - m.pos
  {
    if m.pos < |t| && t[m.pos] != 0 && Next(cfg, t, m).Go? {
      var next := Next(cfg, t, m).m;
      TransitNested(cfg, t, m, next);
      var blank := Blank(cfg, t, next.pos, next.log);
      if blank.Fine? {
        StackMatchesHistory(cfg, t, next.(pos := blank.pos));
      }
    }
  }
}
