/** The recursive-descent parser, as a function of text, position and handler history. */
module Descent {
  import opened Bytes
  import opened Sax
  import opened Strings
  import opened Numbers

  /** How many characters of `word` stand at `p`, up to the first difference. */
  function Matched(t: bytes, p: nat, word: bytes): (n: nat)
    requires p <= |t| && 0 !in word
    ensures n <= |word| && p + n <= |t|
    decreases |word|
  {
    if word == [] || Peek(t, p) != word[0] then 0
    else
      assert word == [word[0]] + word[1..];
      1 + Matched(t, p + 1, word[1..])
  }

  /** A successful part appended one event, and that event opens or closes nothing. */
  ghost predicate AddsLeaf(log: seq<Event>, o: Outcome) {
    o.Fine? ==>
      && |o.log| == |log| + 1
      && o.log[..|log|] == log
      && var e := o.log[|log|]; !e.StartObject? && !e.EndObject? && !e.StartArray? && !e.EndArray?
  }

  /** One of the three literal names. */
  function Word(cfg: Config, t: bytes, p: nat, word: bytes, e: Event, log: seq<Event>): (o: Outcome)
    requires p <= |t| && 0 !in word && word != []
    requires e.Null? || e.Bool?
    ensures o.Fine? ==> p < o.pos <= |t|
    ensures AddsLeaf(log, o)
  {
    var n := Matched(t, p, word);
    if n == |word| then Emit(cfg, log, e, p + n, p + n) else Halt(log, ValueInvalid, p + n)
  }

  /** A string or key literal whose opening quote stands at `p`. */
  function Quote(cfg: Config, t: bytes, p: nat, isKey: bool, log: seq<Event>): (o: Outcome)
    requires p < |t|
    ensures o.Fine? ==> p < o.pos <= |t|
    ensures AddsLeaf(log, o)
  {
    match Unescape(t, p + 1, [])
    case Bad(code, offset) => Halt(log, code, offset)
    case Text(str, next) => Emit(cfg, log, if isKey then Key(str) else String(str), next, next)
  }

  /** A value other than an object or array. */
  function Scalar(cfg: Config, t: bytes, p: nat, log: seq<Event>): (o: Outcome)
    requires p <= |t|
    ensures o.Fine? ==> p < o.pos <= |t|
    ensures AddsLeaf(log, o)
  {
    var c := Peek(t, p);
    if c == LETTER_N then Word(cfg, t, p, NULL_WORD, Null, log)
    else if c == LETTER_T then Word(cfg, t, p, TRUE_WORD, Bool(true), log)
    else if c == LETTER_F then Word(cfg, t, p, FALSE_WORD, Bool(false), log)
    else if c == QUOTE then Quote(cfg, t, p, false, log)
    else Number(cfg, t, p, log)
  }

  function Value(cfg: Config, t: bytes, p: nat, log: seq<Event>): (o: Outcome)
    requires p <= |t|
    ensures o.Fine? ==> p < o.pos <= |t|
    decreases |t| - p, 3
  {
    ValueBy(cfg, t, p, log)
  }

  /** The value by its first character. */
  function ValueBy(cfg: Config, t: bytes, p: nat, log: seq<Event>): (o: Outcome)
    requires p <= |t|
    ensures o.Fine? ==> p < o.pos <= |t|
    decreases |t| - p, 2
  {
    if Peek(t, p) == LEFT_CURLY then Object(cfg, t, p, log)
    else if Peek(t, p) == LEFT_BRACKET then Array(cfg, t, p, log)
    else Scalar(cfg, t, p, log)
  }

  function Object(cfg: Config, t: bytes, p: nat, log: seq<Event>): (o: Outcome)
    requires p < |t|
    ensures o.Fine? ==> p < o.pos <= |t|
    decreases |t| - p, 1
  {
    var start :- Emit(cfg, log, StartObject, p + 1, p + 1);
    var inner :- Blank(cfg, t, start.pos, start.log);
    if Peek(t, inner.pos) == RIGHT_CURLY then
      Emit(cfg, inner.log, EndObject(0), inner.pos + 1, inner.pos + 1)
    else
      Members(cfg, t, inner.pos, inner.log, 0)
  }

  /** The members from `p` on, `count` of them already parsed. */
  function Members(cfg: Config, t: bytes, p: nat, log: seq<Event>, count: nat): (o: Outcome)
    requires p <= |t|
    ensures o.Fine? ==> p < o.pos <= |t|
    decreases |t| - p, 0
  {
    if Peek(t, p) != QUOTE then
      Halt(log, ObjectMissName, p)
    else
      var name :- Quote(cfg, t, p, true, log);
      AfterName(cfg, t, name.pos, name.log, count)
  }

  /** What follows the name of a member. */
  function AfterName(cfg: Config, t: bytes, p: nat, log: seq<Event>, count: nat): (o: Outcome)
    requires p <= |t|
    ensures o.Fine? ==> p < o.pos <= |t|
    decreases |t| - p, 6
  {
    var colon :- Blank(cfg, t, p, log);
    AtColon(cfg, t, colon.pos, log, count)
  }

  function AtColon(cfg: Config, t: bytes, p: nat, log: seq<Event>, count: nat): (o: Outcome)
    requires p <= |t|
    ensures o.Fine? ==> p < o.pos <= |t|
    decreases |t| - p, 5
  {
    if Peek(t, p) != COLON then
      Halt(log, ObjectMissColon, p)
    else
      var before :- Blank(cfg, t, p + 1, log);
      MemberTail(cfg, t, before.pos, log, count)
  }

  /** The value of a member and what follows it. */
  function MemberTail(cfg: Config, t: bytes, p: nat, log: seq<Event>, count: nat): (o: Outcome)
    requires p <= |t|
    ensures o.Fine? ==> p < o.pos <= |t|
    decreases |t| - p, 4
  {
    var value :- Value(cfg, t, p, log);
    var after :- Blank(cfg, t, value.pos, value.log);
    AfterMember(cfg, t, after.pos, after.log, Next32(count))
  }

  /** The comma or bracket after a member. */
  function AfterMember(cfg: Config, t: bytes, p: nat, log: seq<Event>, count: nat): (o: Outcome)
    requires p <= |t|
    ensures o.Fine? ==> p < o.pos <= |t|
    decreases |t| - p, 1
  {
    if Peek(t, p) == COMMA then
      var next :- Blank(cfg, t, p + 1, log);
      if cfg.trailingCommas && Peek(t, next.pos) == RIGHT_CURLY then
        Emit(cfg, next.log, EndObject(count), next.pos + 1, next.pos)
      else
        Members(cfg, t, next.pos, next.log, count)
    else if Peek(t, p) == RIGHT_CURLY then
      Emit(cfg, log, EndObject(count), p + 1, p + 1)
    else
      Halt(log, ObjectMissCommaOrCurlyBracket, p)
  }

  function Array(cfg: Config, t: bytes, p: nat, log: seq<Event>): (o: Outcome)
    requires p < |t|
    ensures o.Fine? ==> p < o.pos <= |t|
    decreases |t| - p, 1
  {
    var start :- Emit(cfg, log, StartArray, p + 1, p + 1);
    var inner :- Blank(cfg, t, start.pos, start.log);
    if Peek(t, inner.pos) == RIGHT_BRACKET then
      Emit(cfg, inner.log, EndArray(0), inner.pos + 1, inner.pos + 1)
    else
      Elements(cfg, t, inner.pos, inner.log, 0)
  }

  /** The elements from `p` on, `count` of them already parsed. */
  function Elements(cfg: Config, t: bytes, p: nat, log: seq<Event>, count: nat): (o: Outcome)
    requires p <= |t|
    ensures o.Fine? ==> p < o.pos <= |t|
    decreases |t| - p, 4
  {
    var value :- Value(cfg, t, p, log);
    var after :- Blank(cfg, t, value.pos, value.log);
    AfterElement(cfg, t, after.pos, after.log, Next32(count))
  }

  /** The comma or bracket after an element. */
  function AfterElement(cfg: Config, t: bytes, p: nat, log: seq<Event>, count: nat): (o: Outcome)
    requires p <= |t|
    ensures o.Fine? ==> p < o.pos <= |t|
    decreases |t| - p, 1
  {
    if Peek(t, p) == COMMA then
      var next :- Blank(cfg, t, p + 1, log);
      if cfg.trailingCommas && Peek(t, next.pos) == RIGHT_BRACKET then
        Emit(cfg, next.log, EndArray(count), next.pos + 1, next.pos)
      else
        Elements(cfg, t, next.pos, next.log, count)
    else if Peek(t, p) == RIGHT_BRACKET then
      Emit(cfg, log, EndArray(count), p + 1, p + 1)
    else
      Halt(log, ArrayMissCommaOrSquareBracket, p)
  }

  /** What follows a complete root value. */
  function Root(cfg: Config, t: bytes, p: nat, log: seq<Event>): (o: Outcome)
    requires p <= |t|
    ensures o.Fine? ==> p <= o.pos <= |t|
  {
    if cfg.stopWhenDone then
      Fine(p, log)
    else
      var end :- Blank(cfg, t, p, log);
      if Peek(t, end.pos) != 0 then Halt(end.log, DocumentRootNotSingular, end.pos) else end
  }

  /** The whole text. */
  function Parse(cfg: Config, t: bytes): Outcome {
    var start :- Blank(cfg, t, 0, []);
    if Peek(t, start.pos) == 0 then
      Halt(start.log, DocumentEmpty, start.pos)
    else
      var value :- Value(cfg, t, start.pos, start.log);
      Root(cfg, t, value.pos, value.log)
  }
}
