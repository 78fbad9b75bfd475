/** Parser events, error codes, parse flags and the outcome of parsing a part of a text. */
module Sax {
  import opened Bytes

  /** What a handler receives. A double is kept as the text of its literal. */
  datatype Event =
    | Null
    | Bool(b: bool)
    | Int(i: int)
    | Uint(u: nat)
    | Int64(i64: int)
    | Uint64(u64: nat)
    | Double(literal: bytes)
    | String(str: bytes)
    | Key(name: bytes)
    | StartObject
    | EndObject(memberCount: nat)
    | StartArray
    | EndArray(elementCount: nat)

  datatype ErrorCode =
    | DocumentEmpty
    | DocumentRootNotSingular
    | ValueInvalid
    | ObjectMissName
    | ObjectMissColon
    | ObjectMissCommaOrCurlyBracket
    | ArrayMissCommaOrSquareBracket
    | StringUnicodeEscapeInvalidHex
    | StringUnicodeSurrogateInvalid
    | StringEscapeInvalid
    | StringMissQuotationMark
    | StringInvalidEncoding
    | NumberTooBig
    | NumberMissFraction
    | NumberMissExponent
    | Termination
    | UnspecificSyntaxError

  /**
   The parse flags, the handler and the one floating-point fact parsing depends on. `accepts` is the handler's
   answer to the last event of a history; `overflows` says whether a literal exceeds the largest double.
   */
  datatype Config = Config(
    comments: bool,
    trailingCommas: bool,
    stopWhenDone: bool,
    accepts: seq<Event> -> bool,
    overflows: bytes -> bool)

  /** Either the position and event log after a successful part, or the log and the error that ended parsing. */
  datatype Outcome =
    | Fine(pos: nat, log: seq<Event>)
    | Halt(log: seq<Event>, code: ErrorCode, offset: nat)
  {
    predicate IsFailure() {
      Halt?
    }

    function PropagateFailure(): Outcome
      requires Halt?
    {
      this
    }

    function Extract(): Outcome
      requires Fine?
    {
      this
    }
  }

  /** Member and element counts are 32-bit. */
  function Next32(count: nat): nat {
    (count + 1) % 0x1_0000_0000
  }

  /** Hands an event to the handler; on success parsing goes on at `pos`, a refusal is reported at `offset`. */
  function Emit(cfg: Config, log: seq<Event>, e: Event, pos: nat, offset: nat): Outcome {
    if cfg.accepts(log + [e]) then Fine(pos, log + [e]) else Halt(log + [e], Termination, offset)
  }

  /** Position just after the end of a block comment whose body starts at `p`. */
  function BlockEnd(t: bytes, p: nat): (r: Option<nat>)
    requires p <= |t|
    ensures r.Some? ==> p < r.value <= |t|
    decreases |t| - p
  {
    if Peek(t, p) == 0 then None
    else if Peek(t, p) == STAR then
      if Peek(t, p + 1) == SLASH then Some(p + 2) else BlockEnd(t, p + 1)
    else BlockEnd(t, p + 1)
  }

  /** Where the scan of an unclosed block comment stops. */
  function TextEnd(t: bytes, p: nat): (q: nat)
    requires p <= |t|
    ensures p <= q <= |t| && Peek(t, q) == 0
    decreases |t| - p
  {
    if Peek(t, p) == 0 then p else TextEnd(t, p + 1)
  }

  /** Position just after the line that holds `p`. */
  function LineEnd(t: bytes, p: nat): (q: nat)
    requires p <= |t|
    ensures p <= q <= |t|
    decreases |t| - p
  {
    if Peek(t, p) == 0 then p
    else if t[p] == LINE_FEED then p + 1
    else LineEnd(t, p + 1)
  }

  /** Skips white space and, when the flag allows them, comments. */
  function Blank(cfg: Config, t: bytes, p: nat, log: seq<Event>): (o: Outcome)
    requires p <= |t|
    ensures o.Fine? ==> p <= o.pos <= |t| && o.log == log
    ensures o.Halt? ==> o.log == log && o.code == UnspecificSyntaxError
    decreases |t| - p, 1
  {
    BlankFrom(cfg, t, p, log)
  }

  /** White space, and the comment after it. */
  function BlankFrom(cfg: Config, t: bytes, p: nat, log: seq<Event>): (o: Outcome)
    requires p <= |t|
    ensures o.Fine? ==> p <= o.pos <= |t| && o.log == log
    ensures o.Halt? ==> o.log == log && o.code == UnspecificSyntaxError
    decreases |t| - p, 0
  {
    var q := SkipSpace(t, p);
    if !cfg.comments || Peek(t, q) != SLASH then
      Fine(q, log)
    else if Peek(t, q + 1) == STAR then
      match BlockEnd(t, q + 2)
      case Some(r) => Blank(cfg, t, r, log)
      case None => Halt(log, UnspecificSyntaxError, TextEnd(t, q + 2))
    else if Peek(t, q + 1) == SLASH then
      Blank(cfg, t, LineEnd(t, q + 2), log)
    else
      Halt(log, UnspecificSyntaxError, q + 1)
  }

  /** White space before another character is skipped whatever the comment flag, unless a slash follows. */
  lemma BlankIs(cfg: Config, t: bytes, p: nat, s: bytes, log: seq<Event>)
    requires At(t, p, s) && AllSpace(s)
    requires !IsSpace(Peek(t, p + |s|)) && Peek(t, p + |s|) != SLASH
    ensures Blank(cfg, t, p, log) == Fine(p + |s|, log)
  {
    SkipSpaceIs(t, p, s);
  }
}
