/**
 The reader: one cursor over a null-terminated buffer, decoding strings either into a stack of its own or in the
 buffer itself. Every method is proved against the parsers' specification on the text the buffer held at first.
 */
module Reader {
  import opened Bytes
  import opened Sax
  import opened Strings
  import opened Numbers
  import opened Descent
  import ParserEquivalence
  import opened Pushdown
  import Utf8

  /** What a handler is given: an event, or a string that lies in the buffer. */
  datatype Raw =
    | Plain(e: Event)
    | Slice(isKey: bool, start: nat, length: nat)

  function StringEvent(isKey: bool, str: bytes): Event {
    if isKey then Key(str) else String(str)
  }

  /** The event a delivered item means while the buffer holds `mem`. */
  function Resolve(raw: Raw, mem: bytes): Event {
    match raw
    case Plain(e) => e
    case Slice(isKey, start, length) =>
      StringEvent(isKey, if start + length <= |mem| then mem[start..start + length] else [])
  }

  function Resolved(log: seq<Raw>, mem: bytes): (events: seq<Event>)
    ensures |events| == |log|
    decreases |log|
  {
    if log == [] then [] else Resolved(log[..|log| - 1], mem) + [Resolve(log[|log| - 1], mem)]
  }

  /** All delivered strings end, with their terminator, before `limit`. */
  ghost predicate Below(log: seq<Raw>, limit: nat)
    decreases |log|
  {
    log == [] || (RawBelow(log[|log| - 1], limit) && Below(log[..|log| - 1], limit))
  }

  predicate RawBelow(raw: Raw, limit: nat) {
    raw.Slice? ==> raw.start + raw.length < limit
  }

  lemma {:induction false} BelowGrows(log: seq<Raw>, limit: nat, limit': nat)
    requires Below(log, limit) && limit <= limit'
    ensures Below(log, limit')
    decreases |log|
  {
    if log != [] {
      BelowGrows(log[..|log| - 1], limit, limit');
    }
  }

  /** Writing at or after `limit` leaves every delivered string as it was. */
  lemma {:induction false} ResolvedKept(log: seq<Raw>, mem: bytes, mem': bytes, limit: nat)
    requires Below(log, limit) && limit <= |mem| == |mem'|
    requires forall k | 0 <= k < limit :: mem[k] == mem'[k]
    ensures Resolved(log, mem) == Resolved(log, mem')
    decreases |log|
  {
    if log != [] {
      ResolvedKept(log[..|log| - 1], mem, mem', limit);
      ResolveKept(log[|log| - 1], mem, mem', limit);
    }
  }

  lemma ResolveKept(raw: Raw, mem: bytes, mem': bytes, limit: nat)
    requires RawBelow(raw, limit) && limit <= |mem| == |mem'|
    requires forall k | 0 <= k < limit :: mem[k] == mem'[k]
    ensures Resolve(raw, mem) == Resolve(raw, mem')
  {
    if raw.Slice? {
      assert mem[raw.start..raw.start + raw.length] == mem'[raw.start..raw.start + raw.length];
    }
  }

  lemma ResolvedAdd(log: seq<Raw>, raw: Raw, mem: bytes)
    ensures Resolved(log + [raw], mem) == Resolved(log, mem) + [Resolve(raw, mem)]
  {
    assert (log + [raw])[..|log|] == log;
  }

  lemma BelowAdd(log: seq<Raw>, raw: Raw, limit: nat)
    requires Below(log, limit) && RawBelow(raw, limit)
    ensures Below(log + [raw], limit)
  {
    assert (log + [raw])[..|log|] == log;
  }

  /** From `from` on the buffer still holds the text and its terminator. */
  ghost predicate Ahead(text: bytes, mem: bytes, from: nat) {
    |mem| == |text| + 1 && forall k {:trigger mem[k]} | from <= k <= |text| :: mem[k] == Peek(text, k)
  }

  /** The number spelled by `n` hexadecimal digits at `p`. */
  function HexDigits(t: bytes, p: nat, n: nat): Option<nat> {
    if n == 0 then Some(0)
    else
      match HexDigits(t, p, n - 1)
      case None => None
      case Some(v) => if IsHex(Peek(t, p + n - 1)) then Some(v * 0x10 + HexValue(Peek(t, p + n - 1))) else None
  }

  lemma FourHexDigits(t: bytes, p: nat)
    ensures HexDigits(t, p, 4) == Hex4(t, p)
  {
    var a, b, c := Peek(t, p), Peek(t, p + 1), Peek(t, p + 2);
    assert HexDigits(t, p, 1) == if IsHex(a) then Some(HexValue(a)) else None;
    assert HexDigits(t, p, 2) == if IsHex(a) && IsHex(b) then Some(HexValue(a) * 0x10 + HexValue(b)) else None;
    assert HexDigits(t, p, 3) == if IsHex(a) && IsHex(b) && IsHex(c) then
      Some((HexValue(a) * 0x10 + HexValue(b)) * 0x10 + HexValue(c)) else None;
  }

  lemma {:induction false} HexDigitsNone(t: bytes, p: nat, n: nat, m: nat)
    requires n <= m && HexDigits(t, p, n).None?
    ensures HexDigits(t, p, m).None?
    decreases m
  {
    if n < m {
      HexDigitsNone(t, p, n, m - 1);
    }
  }

  /** What the handler finds at a slice that the terminator ends. */
  lemma SliceIs(mem: bytes, head: nat, end: nat, isKey: bool)
    requires head < end <= |mem|
    ensures Resolve(Slice(isKey, head, end - head - 1), mem)
      == StringEvent(isKey, mem[head..end][..end - head - 1])
  {
    assert mem[head..head + (end - head - 1)] == mem[head..end][..end - head - 1];
  }

  lemma ShiftIs(t: bytes, l: Literal, s: Significand)
    requires ValidLiteral(t, l) && l.fracEnd > l.intEnd
    requires Accumulated(s, l.minus, IntegerValue(t, l), l.intEnd - l.intStart)
    ensures FractionShift(t, l) == if s.useDouble then 0 else
      0 - FoldCount(t, l.intEnd + 1, l.fracEnd, if s.use64bit then s.i64 as int else s.i as int, s.digits as int)
  {
  }

  lemma NoExponent(t: bytes, l: Literal)
    requires PartialLiteral(t, l) && Peek(t, l.end) != 0x65 && Peek(t, l.end) != 0x45
    ensures ScanExponent(t, l) == Found(l) && !ExponentTooBig(t, l)
  {
  }

  /** Where the digits of an exponent start whose letter stands at `p`. */
  function ExponentDigits(t: bytes, p: nat): nat {
    if Peek(t, p + 1) == PLUS || Peek(t, p + 1) == MINUS then p + 2 else p + 1
  }

  lemma ExponentMissing(t: bytes, l: Literal)
    requires PartialLiteral(t, l) && (Peek(t, l.end) == 0x65 || Peek(t, l.end) == 0x45)
    requires !IsDigit(Peek(t, ExponentDigits(t, l.end)))
    ensures ScanExponent(t, l) == Wrong(NumberMissExponent, ExponentDigits(t, l.end))
  {
  }

  lemma ExponentFound(t: bytes, l: Literal) returns (whole: Literal)
    requires PartialLiteral(t, l) && (Peek(t, l.end) == 0x65 || Peek(t, l.end) == 0x45)
    requires IsDigit(Peek(t, ExponentDigits(t, l.end)))
    ensures var d := ExponentDigits(t, l.end);
      && d < |t|
      && whole == l.(exponentStart := d, exponentMinus := Peek(t, l.end + 1) == MINUS, end := DigitsEnd(t, d))
    ensures ScanExponent(t, l) == Found(whole) && ValidLiteral(t, whole)
    ensures FractionShift(t, whole) == FractionShift(t, l)
  {
    var d := ExponentDigits(t, l.end);
    whole := l.(exponentStart := d, exponentMinus := Peek(t, l.end + 1) == MINUS, end := DigitsEnd(t, d));
  }

  lemma ExponentFails(cfg: Config, t: bytes, p: nat, log: seq<Event>, l: Literal)
    requires p <= |t| && PartialLiteral(t, l) && ScanNumber(t, p) == ScanExponent(t, l)
    ensures var s := ScanExponent(t, l);
      && (s.Wrong? ==> Number(cfg, t, p, log) == Halt(log, s.code, s.offset))
      && (s.Found? && ExponentTooBig(t, s.literal) ==> Number(cfg, t, p, log) == Halt(log, NumberTooBig, p))
      && (s.Found? ==> s.literal.fracEnd == l.fracEnd && (s.literal.end == l.end || s.literal.end != l.intEnd))
  {
    var s := ScanExponent(t, l);
    if s.Wrong? {
      NumberWrong(cfg, t, p, log, s.code, s.offset);
    } else if ExponentTooBig(t, s.literal) {
      NumberTooLarge(cfg, t, p, log, s.literal);
    }
  }

  lemma NoSecondEscape(t: bytes, p: nat, high: nat)
    requires 0xD800 <= high <= 0xDBFF && (Peek(t, p + 6) != BACKSLASH || Peek(t, p + 7) != LETTER_U)
    ensures SurrogateAt(t, p, high) == Fail(StringUnicodeSurrogateInvalid, p)
  {
  }

  lemma LowHalf(t: bytes, p: nat, high: nat)
    requires 0xD800 <= high <= 0xDBFF && Peek(t, p + 6) == BACKSLASH && Peek(t, p + 7) == LETTER_U
    ensures SurrogateAt(t, p, high) ==
      var low := Hex4(t, p + 8);
      if low.None? then Fail(StringUnicodeEscapeInvalidHex, p)
      else if low.value < 0xDC00 || low.value > 0xDFFF then Fail(StringUnicodeSurrogateInvalid, p)
      else Piece.Put(Utf8.Encode((high - 0xD800) * 0x400 + (low.value - 0xDC00) + 0x10000), p + 12)
  {
  }

  /** What the table's answer makes of a transition. */
  lemma NextIs(cfg: Config, t: bytes, m: Machine)
    requires m.pos < |t|
    ensures var dst := Predict(m.state, Tokenize(t[m.pos]));
      && (dst.Error? ==> Next(cfg, t, m) == Stop(Halt(m.log, ErrorIn(m.state), m.pos)))
      && (dst.ObjectInitial? || dst.ArrayInitial? ==> Next(cfg, t, m) == Open(cfg, m, dst))
      && (dst.KeyValueDelimiter? ==> Next(cfg, t, m) == Go(m.(state := dst, pos := m.pos + 1)))
      && (dst.MemberDelimiter? || dst.ElementDelimiter? ==> Next(cfg, t, m) == Comma(m, dst))
      && (dst.ObjectFinish? || dst.ArrayFinish? ==>
            Next(cfg, t, m) ==
              if !cfg.trailingCommas && (m.state.MemberDelimiter? || m.state.ElementDelimiter?) then
                Stop(Halt(m.log, if dst.ObjectFinish? then ObjectMissName else ValueInvalid, m.pos))
              else Pushdown.Close(cfg, m))
      && (IsLeafState(dst) ==>
            Next(cfg, t, m) == Continue(
              if dst.MemberKey? then Quote(cfg, t, m.pos, true, m.log) else Scalar(cfg, t, m.pos, m.log),
              if dst.SingleValue? then Finish else dst, m.frames))
      && (dst.MemberKey? ==> t[m.pos] == QUOTE)
      && (dst.MemberDelimiter? || dst.ElementDelimiter? || dst.ObjectFinish? || dst.ArrayFinish? ==>
            InObject(m.state) || InArray(m.state))
  {
  }

  lemma FrameAround(s: State, frames: seq<Frame>, open: seq<bool>)
    requires Matches(s, frames, open) && (InObject(s) || InArray(s))
    ensures frames != [] && Top(frames).ret != Error
  {
  }

  function Least(a: int, b: int): int {
    if a <= b then a else b
  }

  lemma BlankAfterSpace(cfg: Config, t: bytes, p: nat, log: seq<Event>)
    requires p <= |t|
    ensures var q := SkipSpace(t, p);
      Blank(cfg, t, p, log) == if cfg.comments && Peek(t, q) == SLASH then Blank(cfg, t, q, log) else Fine(q, log)
  {
    var q := SkipSpace(t, p);
    assert SkipSpace(t, q) == q;
  }

  /** Longest text for which exponent arithmetic is proved to stay in the range of an int. */
  const MAX_TEXT := 214_748_055

  /** What the specification does after the opening bracket of an array. */
  ghost function ArrayTail(cfg: Config, t: bytes, p: nat, log: seq<Event>): Outcome
    requires p <= |t|
  {
    var inner :- Blank(cfg, t, p, log);
    if Peek(t, inner.pos) == RIGHT_BRACKET then Emit(cfg, inner.log, EndArray(0), inner.pos + 1, inner.pos + 1)
    else Elements(cfg, t, inner.pos, inner.log, 0)
  }

  class Reader {
    ghost const text: bytes
    const cfg: Config
    const insitu: bool
    const buf: array<byte>
    ghost var mem: bytes
    var src: nat
    var dst: nat
    var stack: bytes
    var frames: seq<Frame>
    var log: seq<Raw>
    ghost var settled: nat
    ghost var events: seq<Event>
    var error: Option<ErrorCode>
    var errorOffset: nat

    /** The buffer is untouched ahead of the cursor. */
    ghost predicate Valid()
      reads this, buf
    {
      && mem == buf[..]
      && src <= |text| <= MAX_TEXT
      && Ahead(text, mem, if insitu then src else 0)
    }

    /** Behind the cursor the buffer holds every string delivered so far. */
    ghost predicate Kept()
      reads this
    {
      settled <= src && Below(log, settled) && Resolved(log, mem) == events
    }

    /** What has happened so far, as an outcome of the specification. */
    ghost function Out(): Outcome
      reads this
    {
      if error.Some? then Halt(events, error.value, errorOffset) else Fine(src, events)
    }

    constructor (buf: array<byte>, ghost text: bytes, cfg: Config, insitu: bool)
      requires buf[..] == text + [0] && |text| <= MAX_TEXT
      ensures Valid() && Kept() && this.buf == buf && this.text == text && this.cfg == cfg && this.insitu == insitu
      ensures Out() == Fine(0, [])
    {
      this.buf, this.text, this.cfg, this.insitu := buf, text, cfg, insitu;
      mem, src, dst, stack, log, settled, events := buf[..], 0, 0, [], [], 0, [];
      frames, error, errorOffset := [], None, 0;
    }

    // -------------------------------------------------------------- The stream

    method PeekChar() returns (c: byte)
      requires Valid()
      ensures c == Peek(text, src)
    {
      c := buf[src];
    }

    method Take() returns (c: byte)
      requires Valid() && src < |text|
      modifies this`src
      ensures Valid() && src == old(src) + 1 && c == text[old(src)]
    {
      c := buf[src];
      src := src + 1;
    }

    method Consume(wanted: byte) returns (ok: bool)
      requires Valid() && wanted != 0
      modifies this`src
      ensures Valid() && ok == (Peek(text, old(src)) == wanted)
      ensures src == if ok then old(src) + 1 else old(src)
    {
      var c := PeekChar();
      if c == wanted {
        var _ := Take();
        return true;
      }
      return false;
    }

    method SetError(code: ErrorCode, offset: nat)
      requires error.None?
      modifies this`error, this`errorOffset
      ensures error == Some(code) && errorOffset == offset
      ensures Out() == Halt(events, code, offset)
    {
      error, errorOffset := Some(code), offset;
    }

    /** Hands an item to the handler, whose answer depends on what it has been given. */
    method Deliver(raw: Raw) returns (ok: bool)
      requires Valid() && Kept() && error.None? && RawBelow(raw, src)
      modifies this`log, this`events, this`settled
      ensures Valid() && Kept() && events == old(events) + [Resolve(raw, mem)]
      ensures ok == cfg.accepts(events)
    {
      ResolvedAdd(log, raw, mem);
      BelowGrows(log, settled, src);
      settled := src;
      BelowAdd(log, raw, src);
      log, events := log + [raw], events + [Resolve(raw, mem)];
      ok := cfg.accepts(Resolved(log, buf[..]));
    }

    /** Delivers an event that is no string in the buffer; a refusal is reported at `offset`. */
    method Report(e: Event, offset: nat)
      requires Valid() && Kept() && error.None?
      modifies this`log, this`events, this`settled, this`error, this`errorOffset
      ensures Valid() && Kept() && Out() == Emit(cfg, old(events), e, src, offset)
    {
      var ok := Deliver(Plain(e));
      if !ok {
        SetError(Termination, offset);
      }
    }

    // -------------------------------------------------------------- White space and comments

    method SkipWhitespace()
      requires Valid()
      modifies this`src
      ensures Valid() && src == SkipSpace(text, old(src))
    {
      var c := PeekChar();
      while IsSpace(c)
        invariant Valid() && old(src) <= src && c == Peek(text, src)
        invariant SkipSpace(text, src) == SkipSpace(text, old(src))
        decreases |text| - src
      {
        var _ := Take();
        c := PeekChar();
      }
    }

    /** Skips the rest of a block comment. */
    method SkipBlock()
      requires Valid() && error.None?
      modifies this`src, this`error, this`errorOffset
      ensures old(src) <= src
      ensures Valid()
      ensures BlockEnd(text, old(src)).Some? ==> error.None? && src == BlockEnd(text, old(src)).value
      ensures BlockEnd(text, old(src)).None? ==>
        error == Some(UnspecificSyntaxError) && errorOffset == TextEnd(text, old(src))
    {
      while true
        invariant Valid() && error.None? && old(src) <= src
        invariant BlockEnd(text, src) == BlockEnd(text, old(src)) && TextEnd(text, src) == TextEnd(text, old(src))
        decreases |text| - src
      {
        var c := PeekChar();
        if c == 0 {
          SetError(UnspecificSyntaxError, src);
          return;
        }
        var star := Consume(STAR);
        if star {
          var slash := Consume(SLASH);
          if slash {
            return;
          }
        } else {
          var _ := Take();
        }
      }
    }

    /** Skips the rest of a line comment. */
    method SkipLine()
      requires Valid()
      modifies this`src
      ensures Valid() && src == LineEnd(text, old(src))
    {
      var c := PeekChar();
      while c != 0
        invariant Valid() && old(src) <= src && c == Peek(text, src)
        invariant LineEnd(text, src) == LineEnd(text, old(src))
        decreases |text| - src
      {
        var taken := Take();
        if taken == LINE_FEED {
          return;
        }
        c := PeekChar();
      }
    }

    /** Skips what follows the slash that opens a comment. */
    method SkipComment()
      requires Valid() && error.None? && src > 0 && Peek(text, src - 1) == SLASH
      requires cfg.comments
      modifies this`src, this`error, this`errorOffset
      ensures old(src) <= src
      ensures Valid()
      ensures if error.Some? then Blank(cfg, text, old(src) - 1, events) == Out()
        else old(src) < src && Blank(cfg, text, old(src) - 1, events) == Blank(cfg, text, src, events)
    {
      var star := Consume(STAR);
      if star {
        SkipBlock();
      } else {
        var slash := Consume(SLASH);
        if slash {
          SkipLine();
        } else {
          SetError(UnspecificSyntaxError, src);
        }
      }
    }

    /** Skips white space and the slash after it, if there is one. */
    method SkipToSlash() returns (slash: bool)
      requires Valid() && error.None? && cfg.comments
      modifies this`src
      ensures Valid() && old(src) <= src
      ensures slash ==> old(src) < src && Peek(text, src - 1) == SLASH
      ensures slash ==> Blank(cfg, text, old(src), events) == Blank(cfg, text, src - 1, events)
      ensures !slash ==> Blank(cfg, text, old(src), events) == Fine(src, events)
    {
      BlankAfterSpace(cfg, text, src, events);
      SkipWhitespace();
      slash := Consume(SLASH);
    }

    method SkipWhitespaceAndComments()
      requires Valid() && error.None?
      modifies this`src, this`error, this`errorOffset
      ensures old(src) <= src
      ensures Valid() && Out() == Blank(cfg, text, old(src), events)
    {
      if !cfg.comments {
        BlankAfterSpace(cfg, text, src, events);
        SkipWhitespace();
        return;
      }
      ghost var goal := Blank(cfg, text, src, events);
      var slash := SkipToSlash();
      while slash
        invariant Valid() && error.None? && old(src) <= src
        invariant slash ==> src > 0 && Peek(text, src - 1) == SLASH && Blank(cfg, text, src - 1, events) == goal
        invariant !slash ==> Fine(src, events) == goal
        decreases |text| - src
      {
        SkipComment();
        if error.Some? {
          return;
        }
        slash := SkipToSlash();
      }
    }

    /** Reads the rest of a literal name, character by character. */
    method ConsumeWord(word: bytes) returns (ok: bool)
      requires Valid() && 0 !in word
      modifies this`src
      ensures Valid() && src == old(src) + Matched(text, old(src), word)
      ensures ok == (Matched(text, old(src), word) == |word|)
    {
      var i := 0;
      while i < |word|
        invariant Valid() && i <= |word| && src == old(src) + i
        invariant Matched(text, old(src), word) == i + Matched(text, src, word[i..])
      {
        assert word[i..][1..] == word[i + 1..];
        var same := Consume(word[i]);
        if !same {
          return false;
        }
        i := i + 1;
      }
      return true;
    }

    /** `null`, `true` or `false`, whose first character is already recognized. */
    method ParseWord(word: bytes, e: Event)
      requires Valid() && Kept() && error.None? && 0 !in word && word != [] && Peek(text, src) == word[0]
      requires e.Null? || e.Bool?
      modifies this
      ensures frames == old(frames)
      ensures Valid() && Kept() && old(src) <= src && Out() == Word(cfg, text, old(src), word, e, old(events))
    {
      ghost var start := src;
      var _ := Take();
      assert word == [word[0]] + word[1..];
      assert Matched(text, start, word) == 1 + Matched(text, src, word[1..]);
      var ok := ConsumeWord(word[1..]);
      if ok {
        Report(e, src);
      } else {
        SetError(ValueInvalid, src);
      }
    }

    // -------------------------------------------------------------- Strings

    /** Decoding a string whose output began at `head`: the write cursor has not passed the read cursor. */
    ghost predicate Decoding(head: nat)
      reads this, buf
    {
      Valid() && Kept() && (insitu ==> settled <= head <= dst <= src)
    }

    /** What has been decoded so far. */
    ghost function Written(head: nat): bytes
      requires Decoding(head)
      reads this, buf
    {
      if insitu then mem[head..dst] else stack
    }

    method Put(c: byte, ghost head: nat)
      requires Decoding(head) && (insitu ==> dst < src)
      modifies this`mem, this`dst, this`stack, buf
      ensures Decoding(head) && Written(head) == old(Written(head)) + [c]
      ensures dst == if insitu then old(dst) + 1 else old(dst)
    {
      if insitu {
        ghost var after := mem[dst := c];
        ResolvedKept(log, mem, after, settled);
        buf[dst] := c;
        mem, dst := after, dst + 1;
        assert mem[head..dst] == old(mem[head..dst]) + [c];
      } else {
        stack := stack + [c];
      }
    }

    method PutAll(units: bytes, ghost head: nat)
      requires Decoding(head) && (insitu ==> dst + |units| <= src)
      modifies this`mem, this`dst, this`stack, buf
      ensures Decoding(head) && Written(head) == old(Written(head)) + units
    {
      assert units[..0] == [];
      var i := 0;
      while i < |units|
        invariant i <= |units| && Decoding(head) && (insitu ==> dst + |units| - i <= src)
        invariant Written(head) == old(Written(head)) + units[..i]
      {
        assert units[..i + 1] == units[..i] + [units[i]];
        Put(units[i], head);
        i := i + 1;
      }
      assert units[..i] == units;
    }

    static method HexDigitOf(c: byte) returns (ok: bool, digit: nat)
      ensures ok == IsHex(c) && (ok ==> digit == HexValue(c))
    {
      digit := c;
      if 0x30 <= c <= 0x39 {
        return true, digit - 0x30;
      } else if 0x41 <= c <= 0x46 {
        return true, digit - (0x41 - 10);
      } else if 0x61 <= c <= 0x66 {
        return true, digit - (0x61 - 10);
      } else {
        return false, 0;
      }
    }

    method ParseHex4(escapeOffset: nat) returns (codepoint: nat)
      requires Valid() && error.None?
      modifies this`src, this`error, this`errorOffset
      ensures Valid() && old(src) <= src
      ensures Hex4(text, old(src)).Some? ==>
        error.None? && codepoint == Hex4(text, old(src)).value && src == old(src) + 4
      ensures Hex4(text, old(src)).None? ==>
        error == Some(StringUnicodeEscapeInvalidHex) && errorOffset == escapeOffset
    {
      codepoint := 0;
      FourHexDigits(text, src);
      var i := 0;
      while i < 4
        invariant i <= 4 && old(src) <= src && Valid() && error.None? && src == old(src) + i
        invariant HexDigits(text, old(src), i) == Some(codepoint)
      {
        var c := PeekChar();
        var ok, digit := HexDigitOf(c);
        if !ok {
          HexDigitsNone(text, old(src), i + 1, 4);
          SetError(StringUnicodeEscapeInvalidHex, escapeOffset);
          return;
        }
        codepoint := codepoint * 0x10 + digit;
        var _ := Take();
        i := i + 1;
      }
    }

    /** The second half of a surrogate pair, whose first half at `escapeOffset` has been read. */
    method ParseLowSurrogate(escapeOffset: nat, high: nat) returns (codepoint: nat)
      requires Valid() && error.None? && 0xD800 <= high <= 0xDBFF && src == escapeOffset + 6
      modifies this`src, this`error, this`errorOffset
      ensures Valid() && old(src) <= src
      ensures SurrogateAt(text, escapeOffset, high).Put? ==>
        error.None? && codepoint <= 0x10FFFF
        && SurrogateAt(text, escapeOffset, high) == Piece.Put(Utf8.Encode(codepoint), src)
      ensures SurrogateAt(text, escapeOffset, high).Fail? ==>
        error.Some? && SurrogateAt(text, escapeOffset, high) == Fail(error.value, errorOffset)
    {
      codepoint := 0;
      var slash := Consume(BACKSLASH);
      var u := false;
      if slash {
        u := Consume(LETTER_U);
      }
      if !u {
        NoSecondEscape(text, escapeOffset, high);
        SetError(StringUnicodeSurrogateInvalid, escapeOffset);
        return;
      }
      LowHalf(text, escapeOffset, high);
      var low := ParseHex4(escapeOffset);
      if error.Some? {
        return;
      }
      if low < 0xDC00 || low > 0xDFFF {
        SetError(StringUnicodeSurrogateInvalid, escapeOffset);
        return;
      }
      codepoint := (high - 0xD800) * 0x400 + (low - 0xDC00) + 0x10000;
    }

    /** The digits of a unicode escape, whose backslash stands at `escapeOffset`. */
    method ParseUnicode(escapeOffset: nat) returns (codepoint: nat)
      requires Valid() && error.None? && src == escapeOffset + 2 <= |text|
      requires text[escapeOffset] == BACKSLASH && text[escapeOffset + 1] == LETTER_U
      modifies this`src, this`error, this`errorOffset
      ensures Valid() && old(src) <= src
      ensures EscapeAt(text, escapeOffset).Put? ==>
        error.None? && codepoint <= 0x10FFFF && EscapeAt(text, escapeOffset) == Piece.Put(Utf8.Encode(codepoint), src)
      ensures EscapeAt(text, escapeOffset).Fail? ==>
        error.Some? && EscapeAt(text, escapeOffset) == Fail(error.value, errorOffset)
    {
      codepoint := ParseHex4(escapeOffset);
      if error.Some? {
        return;
      }
      if 0xD800 <= codepoint <= 0xDBFF {
        codepoint := ParseLowSurrogate(escapeOffset, codepoint);
      }
    }

    /** Reads one escape and gives the bytes it stands for. */
    method ReadEscape() returns (units: bytes)
      requires Valid() && error.None? && Peek(text, src) == BACKSLASH
      modifies this`src, this`error, this`errorOffset
      ensures Valid() && old(src) <= src
      ensures EscapeAt(text, old(src)).Fail? ==>
        error.Some? && EscapeAt(text, old(src)) == Fail(error.value, errorOffset)
      ensures EscapeAt(text, old(src)).Put? ==>
        error.None? && EscapeAt(text, old(src)) == Piece.Put(units, src)
    {
      units := [];
      var escapeOffset := src;
      var _ := Take();
      var e := PeekChar();
      if SimpleEscape(e).Some? {
        var _ := Take();
        units := [SimpleEscape(e).value];
      } else if e == LETTER_U {
        var _ := Take();
        var codepoint := ParseUnicode(escapeOffset);
        if error.None? {
          units := Utf8.Encode(codepoint);
        }
      } else {
        SetError(StringEscapeInvalid, escapeOffset);
      }
    }

    /** One escape: the bytes it stands for are put out only after all of it has been read. */
    method ParseEscape(ghost head: nat)
      requires Decoding(head) && error.None? && Peek(text, src) == BACKSLASH
      modifies this`mem, this`src, this`dst, this`stack, this`error, this`errorOffset, buf
      ensures old(src) <= src
      ensures Decoding(head)
      ensures EscapeAt(text, old(src)).Fail? ==>
        error.Some? && EscapeAt(text, old(src)) == Fail(error.value, errorOffset)
      ensures EscapeAt(text, old(src)).Put? ==>
        error.None? && EscapeAt(text, old(src)).next == src
      ensures EscapeAt(text, old(src)).Put? ==>
        Written(head) == old(Written(head)) + EscapeAt(text, old(src)).units
    {
      var units := ReadEscape();
      if error.None? {
        PutAll(units, head);
      }
    }

    /** One turn of the decoding loop. */
    method DecodePiece(ghost head: nat) returns (closed: bool)
      requires Decoding(head) && error.None?
      modifies this`mem, this`src, this`dst, this`stack, this`error, this`errorOffset, buf
      ensures old(src) <= src
      ensures Decoding(head)
      ensures var piece := PieceAt(text, old(src));
        if piece.Fail? then error == Some(piece.code) && errorOffset == piece.offset && !closed
        else error.None? && src == piece.next && closed == piece.Close?
      ensures !PieceAt(text, old(src)).Fail? ==>
        Written(head) == old(Written(head)) + if closed then [0] else PieceAt(text, old(src)).units
    {
      closed := false;
      var c := PeekChar();
      if c == BACKSLASH {
        ParseEscape(head);
      } else if c == QUOTE {
        var _ := Take();
        Put(0, head);
        closed := true;
      } else if c < 0x20 {
        SetError(if c == 0 then StringMissQuotationMark else StringInvalidEncoding, src);
      } else {
        var taken := Take();
        Put(taken, head);
      }
    }

    /** Decodes up to the closing quote and ends the output with a terminator. */
    method ParseStringToStream(ghost head: nat)
      requires Decoding(head) && error.None? && Written(head) == []
      modifies this`mem, this`src, this`dst, this`stack, this`error, this`errorOffset, buf
      ensures old(src) <= src
      ensures Decoding(head)
      ensures var d := Unescape(text, old(src), []);
        if d.Bad? then error == Some(d.code) && errorOffset == d.offset
        else error.None? && src == d.next && Written(head) == d.str + [0]
    {
      var closed := false;
      ghost var goal := Unescape(text, src, []);
      while !closed
        invariant Decoding(head) && error.None? && old(src) <= src
        invariant !closed ==> Unescape(text, src, Written(head)) == goal
        invariant closed ==> goal.Text? && src == goal.next && Written(head) == goal.str + [0]
        decreases !closed, |text| - src
      {
        closed := DecodePiece(head);
        if error.Some? {
          return;
        }
      }
    }

    /** Decodes in the buffer; the decoded string begins where the literal's body does. */
    method DecodeInPlace(isKey: bool) returns (raw: Raw)
      requires Valid() && Kept() && error.None? && insitu
      modifies this`mem, this`src, this`dst, this`stack, this`error, this`errorOffset, buf
      ensures old(src) <= src
      ensures Valid() && Kept()
      ensures var d := Unescape(text, old(src), []);
        if d.Bad? then error == Some(d.code) && errorOffset == d.offset
        else error.None? && src == d.next && RawBelow(raw, src) && Resolve(raw, mem) == StringEvent(isKey, d.str)
    {
      var head := src;
      dst := head;
      ParseStringToStream(head);
      if error.Some? {
        raw := Plain(Null);
        return;
      }
      raw := Slice(isKey, head, dst - head - 1);
      SliceIs(mem, head, dst, isKey);
    }

    /** Decodes onto the reader's stack and copies the string from there. */
    method DecodeCopy(isKey: bool) returns (raw: Raw)
      requires Valid() && Kept() && error.None? && !insitu
      modifies this`mem, this`src, this`dst, this`stack, this`error, this`errorOffset, buf
      ensures old(src) <= src
      ensures Valid() && Kept()
      ensures var d := Unescape(text, old(src), []);
        if d.Bad? then error == Some(d.code) && errorOffset == d.offset
        else error.None? && src == d.next && RawBelow(raw, src) && Resolve(raw, mem) == StringEvent(isKey, d.str)
    {
      stack := [];
      ParseStringToStream(src);
      if error.Some? {
        raw := Plain(Null);
        return;
      }
      raw := Plain(StringEvent(isKey, stack[..|stack| - 1]));
      stack := [];
    }

    /** A string or name: the handler gets a slice of the buffer, or a copy. */
    method ParseString(isKey: bool)
      requires Valid() && Kept() && error.None? && Peek(text, src) == QUOTE
      modifies this, buf
      ensures frames == old(frames)
      ensures Valid() && Kept() && old(src) <= src && Out() == Quote(cfg, text, old(src), isKey, old(events))
    {
      var _ := Take();
      var raw;
      if insitu {
        raw := DecodeInPlace(isKey);
      } else {
        raw := DecodeCopy(isKey);
      }
      if error.Some? {
        return;
      }
      var ok := Deliver(raw);
      if !ok {
        SetError(Termination, src);
      }
    }

    // -------------------------------------------------------------- Numbers

    /** The 32-bit loop over the integer digits; it stops before a digit that would not fit. */
    method ScanInt32(minus: bool) returns (i: uint32, use64bit: bool, significandDigit: int32)
      requires Valid() && IsDigit(Peek(text, src))
      modifies this`src
      ensures Valid() && old(src) < src <= DigitsEnd(text, old(src))
      ensures i as int == DigitsValue(text, old(src), src) && significandDigit as int == src - old(src) - 1
      ensures !use64bit ==> src == DigitsEnd(text, old(src)) && i as int <= Limit32(minus)
      ensures use64bit ==>
        src < DigitsEnd(text, old(src)) && DigitsValue(text, old(src), src + 1) > Limit32(minus)
    {
      var cutoff: uint32 := if minus then 214748364 else 429496729;
      var last: uint32 := if minus then 8 else 5;
      var c := Take();
      i, use64bit, significandDigit := (c - 0x30) as uint32, false, 0;
      c := PeekChar();
      while IsDigit(c)
        invariant Valid() && old(src) < src <= DigitsEnd(text, old(src)) && c == Peek(text, src)
        invariant i as int == DigitsValue(text, old(src), src) && significandDigit as int == src - old(src) - 1
        invariant i as int <= Limit32(minus)
        decreases |text| - src
      {
        var digit := (c - 0x30) as uint32;
        if i >= cutoff && (i != cutoff || digit > last) {
          use64bit := true;
          return;
        }
        var _ := Take();
        i := i * 10 + digit;
        significandDigit := significandDigit + 1;
        c := PeekChar();
      }
    }

    /** The 64-bit loop goes on where the 32-bit loop stopped, up to a digit that would not fit. */
    method ScanInt64(minus: bool, ghost first: nat, i: uint32, significandDigit: int32)
      returns (i64: uint64, useDouble: bool, digits: int32)
      requires Valid() && first < src < DigitsEnd(text, first) && first <= |text|
      requires i as int == DigitsValue(text, first, src) && significandDigit as int == src - first - 1
      requires DigitsValue(text, first, src + 1) > Limit32(minus)
      modifies this`src
      ensures Valid() && old(src) <= src <= DigitsEnd(text, first) && digits as int == src - first - 1
      ensures i64 as int == DigitsValue(text, first, src)
      ensures !useDouble ==> src == DigitsEnd(text, first) && Limit32(minus) < i64 as int <= Limit64(minus)
      ensures useDouble ==> src < DigitsEnd(text, first) && DigitsValue(text, first, src + 1) > Limit64(minus)
      ensures useDouble ==> i64 as int > 100_000_000_000_000_000
    {
      var cutoff: uint64 := if minus then 0x0CCC_CCCC_CCCC_CCCC else 0x1999_9999_9999_9999;
      var last: uint64 := if minus then 8 else 5;
      ghost var from := src;
      i64, useDouble, digits := i as uint64, false, significandDigit;
      DigitsEndFrom(text, first, src);
      var c := PeekChar();
      while IsDigit(c)
        invariant Valid() && from <= src <= DigitsEnd(text, first) && c == Peek(text, src)
        invariant digits as int == src - first - 1
        invariant i64 as int == DigitsValue(text, first, src) <= Limit64(minus)
        invariant src > from ==> i64 as int > Limit32(minus)
        decreases |text| - src
      {
        var digit := (c - 0x30) as uint64;
        if i64 >= cutoff && (i64 != cutoff || digit > last) {
          useDouble := true;
          return;
        }
        var _ := Take();
        i64 := i64 * 10 + digit;
        digits := digits + 1;
        c := PeekChar();
        DigitsValueGrows(text, first, from + 1, src);
      }
    }

    /** Takes the digits that follow. */
    method SkipDigits()
      requires Valid()
      modifies this`src
      ensures Valid() && src == DigitsEnd(text, old(src))
    {
      var c := PeekChar();
      while IsDigit(c)
        invariant Valid() && old(src) <= src && c == Peek(text, src)
        invariant DigitsEnd(text, src) == DigitsEnd(text, old(src))
        decreases |text| - src
      {
        var _ := Take();
        c := PeekChar();
      }
    }

    method ParseInteger(minus: bool) returns (s: Significand)
      requires Valid() && error.None?
      modifies this`src, this`error, this`errorOffset
      ensures Valid() && old(src) <= src
      ensures !IsDigit(Peek(text, old(src))) ==> error == Some(ValueInvalid) && errorOffset == old(src)
      ensures IsDigit(Peek(text, old(src))) ==> error.None? && src == IntegerEnd(text, old(src))
      ensures IsDigit(Peek(text, old(src))) ==>
        Accumulated(s, minus, DigitsValue(text, old(src), src), src - old(src))
    {
      s := Significand(false, false, 0, 0, 0);
      var c := PeekChar();
      if c == ZERO {
        var _ := Take();
        assert DigitsValue(text, old(src), src) == 0;
      } else if IsDigit(c) {
        s := ParseNonzero(minus);
      } else {
        SetError(ValueInvalid, src);
      }
    }

    /** The three loops over the digits of an integer part. */
    method ParseNonzero(minus: bool) returns (s: Significand)
      requires Valid() && IsDigit(Peek(text, src))
      modifies this`src
      ensures Valid() && src == DigitsEnd(text, old(src))
      ensures Accumulated(s, minus, DigitsValue(text, old(src), src), src - old(src))
    {
      ghost var first := src;
      var i, use64bit, digits := ScanInt32(minus);
      var i64, useDouble := 0, false;
      if use64bit {
        i64, useDouble, digits := ScanInt64(minus, first, i, digits);
        if useDouble {
          ManyDigits(text, first, src);
          DigitsEndFrom(text, first, src);
          DigitsValueGrows(text, first, src + 1, DigitsEnd(text, first));
          SkipDigits();
        }
      }
      s := Significand(use64bit, useDouble, i, i64, digits);
    }

    /** Folds fraction digits into the 64-bit significand while that is an exact double. */
    method FoldExact(significand: uint64, significandDigit: int32)
      returns (expFrac: int32, i64: uint64, digits: int32)
      requires Valid() && 0 <= significandDigit as int <= |text|
      modifies this`src
      ensures Valid() && old(src) <= src <= DigitsEnd(text, old(src))
      ensures expFrac as int == old(src) - src && 0 <= digits as int <= significandDigit as int + src - old(src)
      ensures FoldCount(text, old(src), DigitsEnd(text, old(src)), significand as int, significandDigit as int)
        == src - old(src) + FoldCount(text, src, DigitsEnd(text, old(src)), i64 as int, digits as int)
      ensures src == DigitsEnd(text, old(src)) || i64 as int > MAX_EXACT_DOUBLE
    {
      ghost var end := DigitsEnd(text, src);
      expFrac, i64, digits := 0, significand, significandDigit;
      var c := PeekChar();
      while IsDigit(c)
        invariant Valid() && old(src) <= src <= end && c == Peek(text, src)
        invariant expFrac as int == old(src) - src && 0 <= digits as int <= significandDigit as int + src - old(src)
        invariant FoldCount(text, old(src), end, significand as int, significandDigit as int)
          == src - old(src) + FoldCount(text, src, end, i64 as int, digits as int)
        decreases |text| - src
      {
        if i64 > 0x1F_FFFF_FFFF_FFFF {
          return;
        }
        var _ := Take();
        i64 := i64 * 10 + (c - 0x30) as uint64;
        expFrac := expFrac - 1;
        if i64 != 0 {
          digits := digits + 1;
        }
        c := PeekChar();
      }
    }

    /** Takes the other fraction digits; only the first 17 significant ones still move the point. */
    method FoldInexact(expFrac: int32, significandDigit: int32, positive: bool) returns (result: int32)
      requires Valid() && 0 <= significandDigit && -(|text| as int) <= expFrac as int <= 0
      requires src < DigitsEnd(text, src) && significandDigit < 17 ==> positive
      modifies this`src
      ensures Valid() && src == DigitsEnd(text, old(src))
      ensures var left := src - old(src);
        result as int == expFrac as int - if significandDigit >= 17 then 0
          else if left <= 17 - significandDigit as int then left else 17 - significandDigit as int
    {
      ghost var end := DigitsEnd(text, src);
      var digits := significandDigit;
      result := expFrac;
      var c := PeekChar();
      while IsDigit(c)
        invariant Valid() && old(src) <= src <= end && c == Peek(text, src)
        invariant significandDigit >= 17 ==> digits == significandDigit && result == expFrac
        invariant significandDigit < 17 ==> digits <= 17 && result == expFrac - (digits - significandDigit)
        invariant significandDigit < 17 ==>
          digits as int == Least(significandDigit as int + src - old(src), 17)
        decreases |text| - src
      {
        if digits < 17 {
          result := result - 1;
          if positive {
            digits := digits + 1;
          }
        }
        var _ := Take();
        c := PeekChar();
      }
    }

    /** The fraction digits: how many of them the significand takes up, negated. */
    method ScanFraction(s: Significand) returns (expFrac: int32)
      requires Valid() && 0 <= s.digits && if s.useDouble then s.digits >= 17 else s.digits as int <= |text|
      modifies this`src
      ensures Valid() && src == DigitsEnd(text, old(src))
      ensures expFrac as int == if s.useDouble then 0 else
        0 - FoldCount(text, old(src), src, if s.use64bit then s.i64 as int else s.i as int, s.digits as int)
    {
      var digits := s.digits;
      var significand := if s.use64bit then s.i64 else s.i as uint64;
      expFrac := 0;
      if !s.useDouble {
        expFrac, significand, digits := FoldExact(significand, digits);
      }
      expFrac := FoldInexact(expFrac, digits, s.useDouble || significand != 0);
    }

    /** The digits of a negative exponent: those past the limit are taken but not counted. */
    method ScanNegativeExponent(expFrac: int32) returns (exp: int32)
      requires Valid() && IsDigit(Peek(text, src)) && -(|text| as int) <= expFrac as int <= 0
      modifies this`src
      ensures Valid() && src == DigitsEnd(text, old(src))
      ensures exp >= 0 && expFrac as int - exp as int >= -0x8000_0000
    {
      var maxExp: int32 := (expFrac + 2147483639) / 10;
      var c := Take();
      exp := (c - 0x30) as int32;
      c := PeekChar();
      while IsDigit(c)
        invariant Valid() && old(src) < src && c == Peek(text, src)
        invariant DigitsEnd(text, src) == DigitsEnd(text, old(src))
        invariant 0 <= exp as int <= maxExp as int * 10 + 9
        invariant IsDigit(c) ==> exp <= maxExp
        decreases |text| - src
      {
        var _ := Take();
        exp := exp * 10 + (c - 0x30) as int32;
        if exp > maxExp {
          SkipDigits();
        }
        c := PeekChar();
      }
    }

    /** The digits of a positive exponent, given up as soon as they exceed what the folded digits allow. */
    method ScanPositiveExponent(expFrac: int32, startOffset: nat) returns (exp: int32)
      requires Valid() && error.None? && IsDigit(Peek(text, src)) && -(|text| as int) <= expFrac as int <= 0
      modifies this`src, this`error, this`errorOffset
      ensures Valid() && old(src) <= src
      ensures var v := DigitsValue(text, old(src), DigitsEnd(text, old(src)));
        if v > 308 - expFrac as int then error == Some(NumberTooBig) && errorOffset == startOffset
        else error.None? && src == DigitsEnd(text, old(src)) && exp as int == v
    {
      var maxExp: int32 := 308 - expFrac;
      ghost var end := DigitsEnd(text, src);
      var c := Take();
      exp := (c - 0x30) as int32;
      c := PeekChar();
      while IsDigit(c)
        invariant Valid() && error.None? && old(src) < src <= end && c == Peek(text, src)
        invariant exp as int == DigitsValue(text, old(src), src) && exp <= maxExp
        decreases |text| - src
      {
        var _ := Take();
        exp := exp * 10 + (c - 0x30) as int32;
        if exp > maxExp {
          DigitsValueGrows(text, old(src), src, end);
          SetError(NumberTooBig, startOffset);
          return;
        }
        c := PeekChar();
      }
    }

    method ParseFractionDigits(s: Significand, ghost l: Literal) returns (expFrac: int32)
      requires Valid() && PartialLiteral(text, l) && src == l.intEnd + 1 < l.fracEnd == DigitsEnd(text, l.intEnd + 1)
      requires Accumulated(s, l.minus, IntegerValue(text, l), l.intEnd - l.intStart)
      modifies this`src
      ensures Valid() && src == l.fracEnd && expFrac as int == FractionShift(text, l)
    {
      ShiftIs(text, l, s);
      expFrac := ScanFraction(s);
    }

    /** The fraction, if there is one; `l` is the literal up to its end. */
    method ParseFraction(s: Significand, ghost start: nat, ghost first: nat, ghost minus: bool)
      returns (expFrac: int32, present: bool, ghost l: Literal)
      requires Valid() && error.None? && IntegerPart(text, start, minus, first, src)
      requires Accumulated(s, minus, DigitsValue(text, first, src), src - first)
      modifies this`src, this`error, this`errorOffset
      ensures Valid() && old(src) <= src
      ensures error.Some? ==> ScanNumber(text, start) == Wrong(error.value, errorOffset)
      ensures error.None? ==> PartialLiteral(text, l) && src == l.end && present == (l.fracEnd != l.intEnd)
      ensures error.None? ==> l.minus == minus && l.intStart == first && l.intEnd == old(src)
      ensures error.None? ==> ScanNumber(text, start) == ScanExponent(text, l)
      ensures error.None? ==> expFrac as int == FractionShift(text, l)
    {
      expFrac := 0;
      l := Literal(minus, first, src, src, src, false, src);
      present := Consume(DOT);
      if !present {
        l := NoFraction(text, start, minus, first, src);
        return;
      }
      expFrac, l := ParseAfterDot(s, start, first, minus);
    }

    /** The digits after the decimal point. */
    method ParseAfterDot(s: Significand, ghost start: nat, ghost first: nat, ghost minus: bool)
      returns (expFrac: int32, ghost l: Literal)
      requires Valid() && error.None? && src > 0 && Peek(text, src - 1) == DOT
      requires IntegerPart(text, start, minus, first, src - 1)
      requires Accumulated(s, minus, DigitsValue(text, first, src - 1), src - 1 - first)
      modifies this`src, this`error, this`errorOffset
      ensures Valid() && old(src) <= src
      ensures error.Some? ==> ScanNumber(text, start) == Wrong(error.value, errorOffset)
      ensures error.None? ==> PartialLiteral(text, l) && src == l.end && l.fracEnd != l.intEnd
      ensures error.None? ==> l.minus == minus && l.intStart == first && l.intEnd == old(src) - 1
      ensures error.None? ==> ScanNumber(text, start) == ScanExponent(text, l)
      ensures error.None? ==> expFrac as int == FractionShift(text, l)
    {
      expFrac := 0;
      l := Literal(minus, first, src, src, src, false, src);
      var c := PeekChar();
      if !IsDigit(c) {
        FractionMissing(text, start, minus, first, src - 1);
        SetError(NumberMissFraction, src);
        return;
      }
      l := WithFraction(text, start, minus, first, src - 1);
      expFrac := ParseFractionDigits(s, l);
    }

    /** The letter and sign of an exponent. */
    method ParseExponentSign() returns (present: bool, expMinus: bool)
      requires Valid()
      modifies this`src
      ensures Valid() && present == (Peek(text, old(src)) == 0x65 || Peek(text, old(src)) == 0x45)
      ensures !present ==> src == old(src)
      ensures present ==> src == ExponentDigits(text, old(src)) && expMinus == (Peek(text, old(src) + 1) == MINUS)
    {
      expMinus := false;
      present := Consume(0x65);
      if !present {
        present := Consume(0x45);
      }
      if present {
        var plus := Consume(PLUS);
        if !plus {
          expMinus := Consume(MINUS);
        }
      }
    }

    method ParseExponentDigits(expFrac: int32, expMinus: bool, startOffset: nat, ghost whole: Literal)
      returns (exp: int32)
      requires Valid() && error.None? && IsDigit(Peek(text, src)) && ValidLiteral(text, whole)
      requires whole.exponentStart == src && whole.end == DigitsEnd(text, src) && whole.exponentMinus == expMinus
      requires expFrac as int == FractionShift(text, whole)
      modifies this`src, this`error, this`errorOffset
      ensures Valid() && old(src) <= src
      ensures if ExponentTooBig(text, whole) then error == Some(NumberTooBig) && errorOffset == startOffset
        else error.None? && src == whole.end
      ensures error.None? ==> -0x8000_0000 <= exp as int + expFrac as int < 0x8000_0000
    {
      if expMinus {
        exp := ScanNegativeExponent(expFrac);
        exp := -exp;
      } else {
        exp := ScanPositiveExponent(expFrac, startOffset);
      }
    }

    /** The exponent, if there is one. */
    method ParseExponent(expFrac: int32, startOffset: nat, ghost l: Literal)
      returns (exp: int32, present: bool)
      requires Valid() && error.None? && src == l.end
      requires PartialLiteral(text, l) && expFrac as int == FractionShift(text, l)
      modifies this`src, this`error, this`errorOffset
      ensures Valid() && old(src) <= src
      ensures var s := ScanExponent(text, l);
        if s.Wrong? then error == Some(s.code) && errorOffset == s.offset
        else if ExponentTooBig(text, s.literal) then error == Some(NumberTooBig) && errorOffset == startOffset
        else error.None? && src == s.literal.end && present == (s.literal.end != l.end)
      ensures error.None? ==> -0x8000_0000 <= exp as int + expFrac as int < 0x8000_0000
    {
      exp := 0;
      var expMinus;
      present, expMinus := ParseExponentSign();
      if !present {
        NoExponent(text, l);
        return;
      }
      var c := PeekChar();
      if !IsDigit(c) {
        ExponentMissing(text, l);
        SetError(NumberMissExponent, src);
        return;
      }
      ghost var whole := ExponentFound(text, l);
      exp := ParseExponentDigits(expFrac, expMinus, startOffset, whole);
    }

    /** A number that is no integer of 64 bits: `exp + expFrac` is the power of ten of its significand. */
    method FinishDouble(exp: int32, expFrac: int32, startOffset: nat)
      requires Valid() && Kept() && error.None? && startOffset <= src
      requires Ahead(text, mem, if insitu then startOffset else 0)
      requires -0x8000_0000 <= exp as int + expFrac as int < 0x8000_0000
      modifies this`log, this`events, this`settled, this`error, this`errorOffset
      ensures Valid() && Kept()
      ensures var literal := text[startOffset..src];
        Out() == if cfg.overflows(literal) then Halt(old(events), NumberTooBig, startOffset)
          else Emit(cfg, old(events), Double(literal), src, startOffset)
    {
      var power: int32 := exp + expFrac;
      var literal := buf[startOffset..src];
      assert literal == text[startOffset..src];
      if cfg.overflows(literal) {
        SetError(NumberTooBig, startOffset);
      } else {
        Report(Double(literal), startOffset);
      }
    }

    method ParseNumber()
      requires Valid() && Kept() && error.None?
      modifies this
      ensures frames == old(frames)
      ensures Valid() && Kept() && old(src) <= src && Out() == Number(cfg, text, old(src), old(events))
    {
      var startOffset := src;
      ghost var before := events;
      var minus := Consume(MINUS);
      ghost var first := src;
      var s := ParseInteger(minus);
      if error.Some? {
        NumberWrong(cfg, text, startOffset, before, ValueInvalid, first);
        return;
      }
      FinishNumber(s, minus, startOffset, first);
    }

    /** What follows the integer part of a number, and its event. */
    method FinishNumber(s: Significand, minus: bool, startOffset: nat, ghost first: nat)
      requires Valid() && Kept() && error.None? && IntegerPart(text, startOffset, minus, first, src)
      requires Accumulated(s, minus, DigitsValue(text, first, src), src - first)
      requires Ahead(text, mem, if insitu then startOffset else 0)
      modifies this
      ensures frames == old(frames)
      ensures Valid() && Kept() && old(src) <= src && Out() == Number(cfg, text, startOffset, old(events))
    {
      ghost var before, intEnd := events, src;
      var expFrac, fraction;
      ghost var l;
      expFrac, fraction, l := ParseFraction(s, startOffset, first, minus);
      if error.Some? {
        NumberWrong(cfg, text, startOffset, before, error.value, errorOffset);
        return;
      }
      FinishExponent(s, minus, expFrac, fraction, startOffset, l);
    }

    method FinishExponent(s: Significand, minus: bool, expFrac: int32, fraction: bool, startOffset: nat,
                          ghost l: Literal)
      requires Valid() && Kept() && error.None? && src == l.end && startOffset <= src
      requires PartialLiteral(text, l) && expFrac as int == FractionShift(text, l)
      requires ScanNumber(text, startOffset) == ScanExponent(text, l)
      requires l.minus == minus && fraction == (l.fracEnd != l.intEnd)
      requires Accumulated(s, minus, IntegerValue(text, l), l.intEnd - l.intStart)
      requires Ahead(text, mem, if insitu then startOffset else 0)
      modifies this
      ensures frames == old(frames)
      ensures Valid() && Kept() && old(src) <= src && Out() == Number(cfg, text, startOffset, old(events))
    {
      ghost var before := events;
      ExponentFails(cfg, text, startOffset, before, l);
      var exp, exponent := ParseExponent(expFrac, startOffset, l);
      if error.None? {
        FinishEvent(s, minus, fraction || exponent, exp, expFrac, startOffset, ScanExponent(text, l).literal);
      }
    }

    method FinishEvent(s: Significand, minus: bool, decimal: bool, exp: int32, expFrac: int32, startOffset: nat,
                       ghost whole: Literal)
      requires Valid() && Kept() && error.None? && src == whole.end && startOffset <= src
      requires ScanNumber(text, startOffset) == Found(whole) && !ExponentTooBig(text, whole)
      requires decimal == (whole.end != whole.intEnd) && whole.minus == minus
      requires Accumulated(s, whole.minus, IntegerValue(text, whole), whole.intEnd - whole.intStart)
      requires Ahead(text, mem, if insitu then startOffset else 0)
      requires -0x8000_0000 <= exp as int + expFrac as int < 0x8000_0000
      modifies this
      ensures frames == old(frames)
      ensures Valid() && Kept() && old(src) <= src && Out() == Number(cfg, text, startOffset, old(events))
    {
      SignificandEventIs(s, whole.minus, IntegerValue(text, whole), whole.intEnd - whole.intStart);
      if s.useDouble || decimal {
        NumberDouble(cfg, text, startOffset, events, whole);
        FinishDouble(exp, expFrac, startOffset);
      } else {
        NumberInteger(cfg, text, startOffset, events, whole, SignificandEvent(s, minus));
        Report(SignificandEvent(s, minus), startOffset);
      }
    }

    // -------------------------------------------------------------- Values, arrays and objects

    method ParseValue()
      requires Valid() && Kept() && error.None?
      modifies this, buf
      ensures Valid() && Kept() && old(src) <= src && Out() == Descent.Value(cfg, text, old(src), old(events))
      decreases |text| - src, 4
    {
      var c := PeekChar();
      if c == LEFT_CURLY {
        ParseObject();
      } else if c == LEFT_BRACKET {
        ParseArray();
      } else {
        ParseScalar(c);
      }
    }

    method ParseScalar(c: byte)
      requires Valid() && Kept() && error.None? && c == Peek(text, src)
      modifies this, buf
      ensures frames == old(frames)
      ensures Valid() && Kept() && old(src) <= src && Out() == Scalar(cfg, text, old(src), old(events))
    {
      if c == LETTER_N {
        ParseWord(NULL_WORD, Null);
      } else if c == LETTER_T {
        ParseWord(TRUE_WORD, Bool(true));
      } else if c == LETTER_F {
        ParseWord(FALSE_WORD, Bool(false));
      } else if c == QUOTE {
        ParseString(false);
      } else {
        ParseNumber();
      }
    }

    method ParseArray()
      requires Valid() && Kept() && error.None? && Peek(text, src) == LEFT_BRACKET
      modifies this, buf
      ensures Valid() && Kept() && old(src) <= src && Out() == Array(cfg, text, old(src), old(events))
      decreases |text| - src, 3
    {
      ghost var goal := Array(cfg, text, src, events);
      var _ := Take();
      Report(StartArray, src);
      if error.Some? {
        return;
      }
      ParseInsideArray(goal);
    }

    /** What follows the opening bracket of an array. */
    method ParseInsideArray(ghost goal: Outcome)
      requires Valid() && Kept() && error.None? && ArrayTail(cfg, text, src, events) == goal
      modifies this, buf
      ensures Valid() && Kept() && old(src) <= src && Out() == goal
      decreases |text| - src, 7
    {
      SkipWhitespaceAndComments();
      if error.Some? {
        return;
      }
      var empty := Consume(RIGHT_BRACKET);
      if empty {
        Report(EndArray(0), src);
        return;
      }
      ParseElements(goal);
    }

    /** The loop over the elements of a nonempty array. */
    method ParseElements(ghost goal: Outcome)
      requires Valid() && Kept() && error.None? && Elements(cfg, text, src, events, 0) == goal
      modifies this, buf
      ensures Valid() && Kept() && old(src) <= src && Out() == goal
      decreases |text| - src, 6
    {
      var elementCount := 0;
      var done := false;
      while !done
        invariant Valid() && Kept() && old(src) <= src
        invariant if done then Out() == goal
          else error.None? && Elements(cfg, text, src, events, elementCount) == goal
        decreases !done, |text| - src
      {
        ParseElement(elementCount, goal);
        if error.Some? {
          return;
        }
        elementCount := Next32(elementCount);
        done := ParseAfterElement(elementCount, goal);
      }
    }

    /** One element and what separates it from the comma or bracket after it. */
    method ParseElement(elementCount: nat, ghost goal: Outcome)
      requires Valid() && Kept() && error.None? && Elements(cfg, text, src, events, elementCount) == goal
      modifies this, buf
      ensures Valid() && Kept() && old(src) <= src
      ensures error.Some? ==> Out() == goal
      ensures error.None? ==>
        old(src) < src && AfterElement(cfg, text, src, events, Next32(elementCount)) == goal
      decreases |text| - src, 5
    {
      ParseValue();
      if error.Some? {
        return;
      }
      SkipWhitespaceAndComments();
    }

    /** The comma or bracket after an element. */
    method ParseAfterElement(elementCount: nat, ghost goal: Outcome) returns (done: bool)
      requires Valid() && Kept() && error.None? && AfterElement(cfg, text, src, events, elementCount) == goal
      modifies this
      ensures Valid() && Kept() && old(src) <= src
      ensures if done then Out() == goal
        else error.None? && old(src) < src && Elements(cfg, text, src, events, elementCount) == goal
    {
      var comma := Consume(COMMA);
      if comma {
        ParserEquivalence.AfterElementComma(cfg, text, old(src), events, elementCount);
        SkipWhitespaceAndComments();
        if error.Some? {
          return true;
        }
        done := ParseTrailingInArray(elementCount, goal);
      } else {
        ParserEquivalence.AfterElementNoComma(cfg, text, src, events, elementCount);
        var close := Consume(RIGHT_BRACKET);
        if close {
          Report(EndArray(elementCount), src);
        } else {
          SetError(ArrayMissCommaOrSquareBracket, src);
        }
        return true;
      }
    }

    /** A bracket just after a comma ends the array when the flag allows it. */
    method ParseTrailingInArray(elementCount: nat, ghost goal: Outcome) returns (done: bool)
      requires Valid() && Kept() && error.None?
      requires ParserEquivalence.NextElement(cfg, text, src, events, elementCount) == goal
      modifies this
      ensures Valid() && Kept() && old(src) <= src
      ensures if done then Out() == goal
        else error.None? && Elements(cfg, text, src, events, elementCount) == goal
    {
      done := false;
      if cfg.trailingCommas {
        var c := PeekChar();
        if c == RIGHT_BRACKET {
          Report(EndArray(elementCount), src);
          if error.None? {
            var _ := Take();
          }
          done := true;
        }
      }
    }

    method ParseObject()
      requires Valid() && Kept() && error.None? && Peek(text, src) == LEFT_CURLY
      modifies this, buf
      ensures Valid() && Kept() && old(src) <= src && Out() == Object(cfg, text, old(src), old(events))
      decreases |text| - src, 3
    {
      ghost var goal := Object(cfg, text, src, events);
      var _ := Take();
      Report(StartObject, src);
      if error.Some? {
        return;
      }
      SkipWhitespaceAndComments();
      if error.Some? {
        return;
      }
      var empty := Consume(RIGHT_CURLY);
      if empty {
        Report(EndObject(0), src);
        return;
      }
      ParseMembers(goal);
    }

    /** The loop over the members of a nonempty object. */
    method ParseMembers(ghost goal: Outcome)
      requires Valid() && Kept() && error.None? && Members(cfg, text, src, events, 0) == goal
      modifies this, buf
      ensures Valid() && Kept() && old(src) <= src && Out() == goal
      decreases |text| - src, 6
    {
      var memberCount := 0;
      var done := false;
      while !done
        invariant Valid() && Kept() && old(src) <= src
        invariant if done then Out() == goal
          else error.None? && Members(cfg, text, src, events, memberCount) == goal
        decreases !done, |text| - src
      {
        ParseName(memberCount, goal);
        if error.Some? {
          return;
        }
        ParseMemberValue(memberCount, goal);
        if error.Some? {
          return;
        }
        memberCount := Next32(memberCount);
        done := ParseAfterMember(memberCount, goal);
      }
    }

    /** The name of a member and the colon after it. */
    method ParseName(memberCount: nat, ghost goal: Outcome)
      requires Valid() && Kept() && error.None? && Members(cfg, text, src, events, memberCount) == goal
      modifies this, buf
      ensures Valid() && Kept() && old(src) <= src
      ensures error.Some? ==> Out() == goal
      ensures error.None? ==> old(src) < src && MemberTail(cfg, text, src, events, memberCount) == goal
    {
      var c := PeekChar();
      if c != QUOTE {
        SetError(ObjectMissName, src);
        return;
      }
      ParseString(true);
      if error.Some? {
        return;
      }
      ParseColon(memberCount, goal);
    }

    method ParseColon(memberCount: nat, ghost goal: Outcome)
      requires Valid() && Kept() && error.None? && AfterName(cfg, text, src, events, memberCount) == goal
      modifies this`src, this`error, this`errorOffset
      ensures Valid() && old(src) <= src
      ensures error.Some? ==> Out() == goal
      ensures error.None? ==> MemberTail(cfg, text, src, events, memberCount) == goal
    {
      SkipWhitespaceAndComments();
      if error.Some? {
        return;
      }
      var colon := Consume(COLON);
      if !colon {
        SetError(ObjectMissColon, src);
        return;
      }
      SkipWhitespaceAndComments();
    }

    /** The value of a member and what separates it from the comma or bracket after it. */
    method ParseMemberValue(memberCount: nat, ghost goal: Outcome)
      requires Valid() && Kept() && error.None? && MemberTail(cfg, text, src, events, memberCount) == goal
      modifies this, buf
      ensures Valid() && Kept() && old(src) <= src
      ensures error.Some? ==> Out() == goal
      ensures error.None? ==> AfterMember(cfg, text, src, events, Next32(memberCount)) == goal
      decreases |text| - src, 5
    {
      ParseValue();
      if error.Some? {
        return;
      }
      SkipWhitespaceAndComments();
    }

    /** The comma or bracket after a member. */
    method ParseAfterMember(memberCount: nat, ghost goal: Outcome) returns (done: bool)
      requires Valid() && Kept() && error.None? && AfterMember(cfg, text, src, events, memberCount) == goal
      modifies this
      ensures Valid() && Kept() && old(src) <= src
      ensures if done then Out() == goal
        else error.None? && old(src) < src && Members(cfg, text, src, events, memberCount) == goal
    {
      var c := PeekChar();
      if c == COMMA {
        done := ParseMemberComma(memberCount, goal);
      } else {
        ParserEquivalence.AfterMemberNoComma(cfg, text, src, events, memberCount);
        if c == RIGHT_CURLY {
          var _ := Take();
          Report(EndObject(memberCount), src);
        } else {
          SetError(ObjectMissCommaOrCurlyBracket, src);
        }
        return true;
      }
    }

    method ParseMemberComma(memberCount: nat, ghost goal: Outcome) returns (done: bool)
      requires Valid() && Kept() && error.None? && Peek(text, src) == COMMA
      requires AfterMember(cfg, text, src, events, memberCount) == goal
      modifies this
      ensures Valid() && Kept() && old(src) <= src
      ensures if done then Out() == goal
        else error.None? && old(src) < src && Members(cfg, text, src, events, memberCount) == goal
    {
      ParserEquivalence.AfterMemberComma(cfg, text, src, events, memberCount);
      var _ := Take();
      SkipWhitespaceAndComments();
      if error.Some? {
        return true;
      }
      done := ParseTrailingInObject(memberCount, goal);
    }

    /** A bracket just after a comma ends the object when the flag allows it. */
    method ParseTrailingInObject(memberCount: nat, ghost goal: Outcome) returns (done: bool)
      requires Valid() && Kept() && error.None?
      requires ParserEquivalence.NextMember(cfg, text, src, events, memberCount) == goal
      modifies this
      ensures Valid() && Kept() && old(src) <= src
      ensures if done then Out() == goal
        else error.None? && Members(cfg, text, src, events, memberCount) == goal
    {
      done := false;
      if cfg.trailingCommas {
        var c := PeekChar();
        if c == RIGHT_CURLY {
          Report(EndObject(memberCount), src);
          if error.None? {
            var _ := Take();
          }
          done := true;
        }
      }
    }

    // -------------------------------------------------------------- The two parsers

    /** The recursive-descent parser. */
    method Parse()
      requires Valid() && Kept() && Out() == Fine(0, [])
      modifies this, buf
      ensures Valid() && Kept() && Out() == Descent.Parse(cfg, text)
    {
      SkipWhitespaceAndComments();
      if error.Some? {
        return;
      }
      var c := PeekChar();
      if c == 0 {
        SetError(DocumentEmpty, src);
        return;
      }
      ParseValue();
      if error.None? {
        ParseRoot();
      }
    }

    /** What follows a complete root. */
    method ParseRoot()
      requires Valid() && Kept() && error.None?
      modifies this`src, this`error, this`errorOffset
      ensures Valid() && old(src) <= src && Out() == Root(cfg, text, old(src), events)
    {
      if !cfg.stopWhenDone {
        SkipWhitespaceAndComments();
        if error.Some? {
          return;
        }
        var c := PeekChar();
        if c != 0 {
          SetError(DocumentRootNotSingular, src);
        }
      }
    }

    /** The machine of the table-driven parser in state `state`. */
    ghost function Now(state: State): Machine
      reads this
    {
      Machine(state, src, frames, events)
    }

    /** The reader has made the turn: it stands at the next machine, or knows the error that ends the run. */
    ghost predicate Made(turn: Turn, from: State, to: State)
      reads this
    {
      match turn
      case Go(m) => error.None? && to != Error && Now(to) == m
      case Stop(o) => to == Error && o == if error.Some? then Out() else Halt(events, ErrorIn(from), src)
    }

    /** Reports an event and, unless the handler refuses, takes the bracket it stands for. */
    method ReportBracket(e: Event)
      requires Valid() && Kept() && error.None? && src < |text|
      modifies this`log, this`events, this`settled, this`src, this`error, this`errorOffset
      ensures Valid() && Kept() && old(src) <= src && Out() == Emit(cfg, old(events), e, old(src) + 1, old(src))
      ensures error.Some? ==> src == old(src)
    {
      Report(e, src);
      if error.None? {
        var _ := Take();
      }
    }

    /** Opens a container: its frame is pushed before the handler is asked. */
    method TransitOpen(from: State, dst: State) returns (to: State)
      requires Valid() && Kept() && error.None? && src < |text| && (dst.ObjectInitial? || dst.ArrayInitial?)
      modifies this
      ensures Valid() && Kept() && old(src) <= src && Made(Open(cfg, old(Now(from)), dst), from, to)
    {
      frames := frames + [Frame(ReturnState(from), 0)];
      ReportBracket(if dst.ObjectInitial? then StartObject else StartArray);
      to := if error.Some? then Error else dst;
    }

    /** Pops the innermost frame: the count of its container and the state to go on in. */
    method PopFrame(from: State) returns (count: nat, n: State)
      requires frames != []
      modifies this`frames
      ensures frames == Popped(old(frames)) && n == Restored(Top(old(frames)).ret)
      ensures var c := Top(old(frames)).count;
        count == if from == MemberValue || from == Element then Next32(c) else c
    {
      var top := frames[|frames| - 1];
      frames := frames[..|frames| - 1];
      count := top.count;
      if from == MemberValue || from == Element {
        count := Next32(count);
      }
      n := top.ret;
      if n == Start {
        n := Finish;
      }
    }

    method TransitClose(from: State) returns (to: State)
      requires Valid() && Kept() && error.None? && src < |text| && frames != []
      requires Top(frames).ret != Error
      modifies this
      ensures Valid() && Kept() && old(src) <= src && Made(Pushdown.Close(cfg, old(Now(from))), from, to)
    {
      var count, n := PopFrame(from);
      ReportBracket(if InObject(from) then EndObject(count) else EndArray(count));
      to := if error.Some? then Error else n;
    }

    method TransitComma(from: State, dst: State) returns (to: State)
      requires Valid() && Kept() && error.None? && src < |text| && frames != [] && dst != Error
      modifies this`src, this`frames
      ensures Valid() && old(src) <= src && Made(Comma(old(Now(from)), dst), from, to)
    {
      var _ := Take();
      var top := frames[|frames| - 1];
      frames := frames[..|frames| - 1] + [top.(count := Next32(top.count))];
      return dst;
    }

    /** A name or a value; the token has ruled out that the value is a container. */
    method TransitLeaf(from: State, dst: State) returns (to: State)
      requires Valid() && Kept() && error.None? && src < |text| && IsLeafState(dst)
      requires dst.MemberKey? ==> text[src] == QUOTE
      modifies this, buf
      ensures Valid() && Kept() && old(src) <= src
      ensures Made(old(LeafTurn(dst)), from, to)
    {
      if dst.MemberKey? {
        ParseString(true);
      } else {
        var c := PeekChar();
        ParseScalar(c);
      }
      to := if error.Some? then Error else if dst.SingleValue? then Finish else dst;
    }

    ghost function LeafTurn(dst: State): Turn
      requires src < |text|
      reads this
    {
      var o := if dst.MemberKey? then Quote(cfg, text, src, true, events) else Scalar(cfg, text, src, events);
      Continue(o, if dst.SingleValue? then Finish else dst, frames)
    }

    /** One transition, from a state whose stack fits the history. */
    method Transit(from: State) returns (to: State)
      requires Valid() && Kept() && error.None? && src < |text| && Nested(Now(from))
      modifies this, buf
      ensures Valid() && Kept() && old(src) <= src
      ensures Made(Next(cfg, text, old(Now(from))), from, to)
      ensures to != Error ==> Nested(Now(to))
    {
      ghost var before := Now(from);
      var c := PeekChar();
      var dst := Predict(from, Tokenize(c));
      NextIs(cfg, text, before);
      to := TransitTo(from, dst);
      if to != Error {
        TransitNested(cfg, text, before, Now(to));
      }
    }

    /** The work of a transition, by the state the table gives. */
    method TransitTo(from: State, dst: State) returns (to: State)
      requires Valid() && Kept() && error.None? && src < |text| && Nested(Now(from))
      requires dst == Predict(from, Tokenize(text[src]))
      modifies this, buf
      ensures Valid() && Kept() && old(src) <= src
      ensures Made(Next(cfg, text, old(Now(from))), from, to)
    {
      NextIs(cfg, text, Now(from));
      if dst == Error {
        to := Error;
      } else if dst.ObjectInitial? || dst.ArrayInitial? {
        to := TransitOpen(from, dst);
      } else if dst.KeyValueDelimiter? {
        var _ := Take();
        to := dst;
      } else if IsLeafState(dst) {
        to := TransitLeaf(from, dst);
      } else {
        to := TransitInside(from, dst);
      }
    }

    /** A comma or a closing bracket. */
    method TransitInside(from: State, dst: State) returns (to: State)
      requires Valid() && Kept() && error.None? && src < |text| && Nested(Now(from))
      requires dst == Predict(from, Tokenize(text[src]))
      requires dst.MemberDelimiter? || dst.ElementDelimiter? || dst.ObjectFinish? || dst.ArrayFinish?
      modifies this
      ensures Valid() && Kept() && old(src) <= src
      ensures Made(Next(cfg, text, old(Now(from))), from, to)
    {
      NextIs(cfg, text, Now(from));
      FrameAround(from, frames, Containers(events));
      if dst.MemberDelimiter? || dst.ElementDelimiter? {
        to := TransitComma(from, dst);
      } else if !cfg.trailingCommas && (from == MemberDelimiter || from == ElementDelimiter) {
        SetError(if dst.ObjectFinish? then ObjectMissName else ValueInvalid, src);
        to := Error;
      } else {
        to := TransitClose(from);
      }
    }

    /** Reports the error of a state that allows no transition, unless an error is known already. */
    method HandleError(state: State)
      modifies this`error, this`errorOffset
      ensures Out() == if old(error).Some? then old(Out()) else Halt(events, ErrorIn(state), src)
    {
      if error.None? {
        SetError(ErrorIn(state), src);
      }
    }

    /** One transition of the table-driven parser and, when it fails, the error. */
    method Advance(state: State, ghost goal: Outcome) returns (next: State)
      requires Valid() && Kept() && error.None? && Peek(text, src) != 0
      requires Nested(Now(state)) && Run(cfg, text, Now(state)) == goal
      modifies this, buf
      ensures Valid() && Kept() && old(src) <= src
      ensures next == Error ==> error.Some? && Out() == goal
      ensures next != Error ==>
        error.None? && old(src) < src && Nested(Now(next)) && Resume(cfg, text, Now(next)) == goal
    {
      ghost var before := Now(state);
      next := Transit(state);
      if next == Error {
        HandleError(state);
        ParserEquivalence.RunStops(cfg, text, before, Out());
      } else {
        ParserEquivalence.RunGoes(cfg, text, before, Now(next));
      }
    }

    /** After a transition: stops at a complete root when asked to, else skips white space. */
    method Settle(state: State, ghost goal: Outcome) returns (done: bool)
      requires Valid() && error.None? && Resume(cfg, text, Now(state)) == goal
      modifies this`src, this`error, this`errorOffset
      ensures Valid() && old(src) <= src
      ensures done ==> Out() == goal
      ensures !done ==> error.None? && Run(cfg, text, Now(state)) == goal
    {
      if cfg.stopWhenDone && state == Finish {
        return true;
      }
      SkipWhitespaceAndComments();
      done := error.Some?;
    }

    /** The table-driven parser. */
    method IterativeParse()
      requires Valid() && Kept() && Out() == Fine(0, []) && frames == []
      modifies this, buf
      ensures Valid() && Kept() && Out() == Pushdown.Parse(cfg, text)
    {
      var state := Start;
      SkipWhitespaceAndComments();
      if error.Some? {
        return;
      }
      ghost var goal := Run(cfg, text, Now(state));
      var c := PeekChar();
      while c != 0
        invariant Valid() && Kept() && error.None? && c == Peek(text, src)
        invariant Nested(Now(state)) && Run(cfg, text, Now(state)) == goal
        decreases |text| - src
      {
        state := Advance(state, goal);
        if state == Error {
          return;
        }
        var done := Settle(state, goal);
        if done {
          return;
        }
        c := PeekChar();
      }
      if state != Finish {
        HandleError(state);
      }
    }
  }
}
