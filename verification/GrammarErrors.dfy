/** The gaps, strings and numbers that are not of the grammar: where they break off, and with which code. */
module GrammarErrors {
  import opened Bytes
  import opened Sax
  import opened Strings
  import opened Numbers
  import opened Grammar
  import opened GrammarLeaves
  import Descent

  // ---------------------------------------------------------------- Comments

  /** A slash that begins no comment, or a block comment that no star with a slash ends; refused at `offset`. */
  ghost predicate CommentBreaks(t: bytes, q: nat, offset: nat) {
    Peek(t, q) == 0x2F &&
    if Peek(t, q + 1) == 0x2A then Unclosed(t, q + 2, offset)
    else Peek(t, q + 1) != 0x2F && offset == q + 1
  }

  /** From `s` to the end of the text, or to its first NUL, no block comment ends. */
  ghost predicate Unclosed(t: bytes, s: nat, offset: nat) {
    && s <= offset <= |t| && Peek(t, offset) == 0
    && forall i | s <= i < offset :: t[i] != 0 && !(t[i] == 0x2A && Peek(t, i + 1) == 0x2F)
  }

  lemma {:induction false} UnclosedIs(t: bytes, s: nat, offset: nat)
    requires s <= |t|
    ensures Unclosed(t, s, offset) <==> BlockEnd(t, s).None? && TextEnd(t, s) == offset
    decreases |t| - s
  {
    if Peek(t, s) != 0 && !(t[s] == 0x2A && Peek(t, s + 1) == 0x2F) {
      UnclosedIs(t, s + 1, offset);
      assert Unclosed(t, s, offset) <==> Unclosed(t, s + 1, offset);
    }
  }

  lemma BreaksAtOnce(cfg: Config, t: bytes, q: nat, log: seq<Event>, offset: nat)
    requires cfg.comments && q <= |t| && Peek(t, q) == 0x2F
    ensures CommentBreaks(t, q, offset) ==> Blank(cfg, t, q, log) == Halt(log, UnspecificSyntaxError, offset)
    ensures Blank(cfg, t, q, log).Halt? ==>
      (exists r :: q < r <= |t| && Comment(t, q, r) && Blank(cfg, t, q, log) == Blank(cfg, t, r, log))
      || CommentBreaks(t, q, Blank(cfg, t, q, log).offset)
  {
    assert SkipSpace(t, q) == q;
    if Peek(t, q + 1) == 0x2A {
      UnclosedIs(t, q + 2, offset);
      UnclosedIs(t, q + 2, TextEnd(t, q + 2));
      if BlockEnd(t, q + 2).Some? {
        BlockEndFound(t, q, q + 2);
        assert Comment(t, q, BlockEnd(t, q + 2).value);
      }
    } else if Peek(t, q + 1) == 0x2F {
      LineEndFound(t, q, q + 2);
      assert Comment(t, q, LineEnd(t, q + 2));
    }
  }

  /** After a gap a comment breaks off: skipping ends with an error there. */
  lemma {:induction false} GapRefused(cfg: Config, t: bytes, p: nat, q: nat, log: seq<Event>, offset: nat)
    requires cfg.comments && p <= q <= |t| && GapAt(cfg, t, p, q) && CommentBreaks(t, q, offset)
    ensures Blank(cfg, t, p, log) == Halt(log, UnspecificSyntaxError, offset)
    decreases q - p
  {
    if p == q {
      BreaksAtOnce(cfg, t, q, log, offset);
    } else {
      assert GapBegins(cfg, t, p, q);
      if IsBlank(t[p]) && GapAt(cfg, t, p + 1, q) {
        BlankSkipped(cfg, t, p, log);
        GapRefused(cfg, t, p + 1, q, log, offset);
      } else {
        var r :| p < r <= q && Comment(t, p, r) && GapAt(cfg, t, r, q);
        CommentSkipped(cfg, t, p, r, log);
        GapRefused(cfg, t, r, q, log, offset);
      }
    }
  }

  /** Skipping ends with an error only there. */
  lemma {:induction false} RefusedGap(cfg: Config, t: bytes, p: nat, log: seq<Event>) returns (q: nat)
    requires p <= |t| && Blank(cfg, t, p, log).Halt?
    ensures cfg.comments && p <= q <= |t| && GapAt(cfg, t, p, q)
    ensures CommentBreaks(t, q, Blank(cfg, t, p, log).offset)
    decreases |t| - p
  {
    if p < |t| && IsBlank(t[p]) {
      BlankSkipped(cfg, t, p, log);
      q := RefusedGap(cfg, t, p + 1, log);
      assert GapBegins(cfg, t, p, q);
    } else {
      assert SkipSpace(t, p) == p;
      BreaksAtOnce(cfg, t, p, log, 0);
      q := p;
      if r :| p < r <= |t| && Comment(t, p, r) && Blank(cfg, t, p, log) == Blank(cfg, t, r, log) {
        q := RefusedGap(cfg, t, r, log);
        assert GapBegins(cfg, t, p, q);
      }
    }
  }

  // ---------------------------------------------------------------- Strings

  /** The first half of a surrogate pair stands at `p`. */
  ghost predicate HighAt(t: bytes, p: nat) {
    exists h :: UnicodeAt(t, p, h) && 0xD800 <= h.number <= 0xDBFF
  }

  ghost predicate LowAt(t: bytes, p: nat) {
    exists h :: UnicodeAt(t, p, h) && 0xDC00 <= h.number <= 0xDFFF
  }

  /** `\u` without four hexadecimal digits behind it. */
  ghost predicate HexMissing(t: bytes, p: nat) {
    Peek(t, p) == 0x5C && Peek(t, p + 1) == 0x75 && !exists h :: UnicodeAt(t, p, h)
  }

  /** What stands at `p` is neither a part of a string nor its end, for the reason that the code gives. */
  ghost predicate StringBreaks(t: bytes, p: nat, code: ErrorCode) {
    match code
    case StringMissQuotationMark => Peek(t, p) == 0
    case StringInvalidEncoding => 0 < Peek(t, p) < 0x20
    case StringEscapeInvalid =>
      Peek(t, p) == 0x5C && Peek(t, p + 1) != 0x75 && forall i | 0 <= i < |SHORT| :: SHORT[i].0 != Peek(t, p + 1)
    case StringUnicodeEscapeInvalidHex => HexMissing(t, p) || (HighAt(t, p) && HexMissing(t, p + 6))
    case StringUnicodeSurrogateInvalid => HighAt(t, p) && !LowAt(t, p + 6) && !HexMissing(t, p + 6)
    case _ => false
  }

  lemma HexMissingIs(t: bytes, p: nat)
    requires Peek(t, p) == 0x5C && Peek(t, p + 1) == 0x75
    ensures HexMissing(t, p) <==> Hex4(t, p + 2).None?
    ensures forall h | UnicodeAt(t, p, h) :: Hex4(t, p + 2) == Some(h.number)
    ensures Hex4(t, p + 2).Some? ==> exists h :: UnicodeAt(t, p, h) && h.number == Hex4(t, p + 2).value
  {
    if Hex4(t, p + 2).Some? {
      var h := HexFound(t, p + 2);
      assert UnicodeAt(t, p, h);
    }
    forall h | UnicodeAt(t, p, h) ensures Hex4(t, p + 2) == Some(h.number) {
      HexRead(t, p + 2, h);
    }
  }

  lemma HighIs(t: bytes, p: nat)
    requires Peek(t, p) == 0x5C && Peek(t, p + 1) == 0x75
    ensures HighAt(t, p) <==> Hex4(t, p + 2).Some? && 0xD800 <= Hex4(t, p + 2).value <= 0xDBFF
    ensures LowAt(t, p) <==> Hex4(t, p + 2).Some? && 0xDC00 <= Hex4(t, p + 2).value <= 0xDFFF
  {
    HexMissingIs(t, p);
  }

  lemma ShortIs(e: byte)
    ensures SimpleEscape(e).None? <==> forall i | 0 <= i < |SHORT| :: SHORT[i].0 != e
  {
    assert SHORT[0].0 == 0x22 && SHORT[1].0 == 0x5C && SHORT[2].0 == 0x2F && SHORT[3].0 == 0x62;
    assert SHORT[4].0 == 0x66 && SHORT[5].0 == 0x6E && SHORT[6].0 == 0x72 && SHORT[7].0 == 0x74;
  }

  lemma SurrogateBreaks(t: bytes, p: nat, high: nat, code: ErrorCode)
    requires Peek(t, p) == 0x5C && Peek(t, p + 1) == 0x75 && Hex4(t, p + 2) == Some(high) && 0xD800 <= high <= 0xDBFF
    ensures SurrogateAt(t, p, high) == Fail(code, p) <==> StringBreaks(t, p, code)
  {
    HexMissingIs(t, p);
    HighIs(t, p);
    if Peek(t, p + 6) == 0x5C && Peek(t, p + 7) == 0x75 {
      HexMissingIs(t, p + 6);
      HighIs(t, p + 6);
    }
  }

  lemma UnicodeBreaks(t: bytes, p: nat, code: ErrorCode)
    requires Peek(t, p) == 0x5C && Peek(t, p + 1) == 0x75
    ensures PieceAt(t, p) == Fail(code, p) <==> StringBreaks(t, p, code)
    ensures PieceAt(t, p).Fail? ==> PieceAt(t, p).offset == p
  {
    HexMissingIs(t, p);
    HighIs(t, p);
    if HighAt(t, p) {
      SurrogateBreaks(t, p, Hex4(t, p + 2).value, code);
    }
  }

  /** One turn of the decoding loop fails exactly where a string breaks off, with that code. */
  lemma PieceBreaks(t: bytes, p: nat, code: ErrorCode)
    requires p <= |t|
    ensures PieceAt(t, p) == Fail(code, p) <==> StringBreaks(t, p, code)
    ensures PieceAt(t, p).Fail? ==> PieceAt(t, p).offset == p
  {
    ShortIs(Peek(t, p + 1));
    if Peek(t, p) == 0x5C && Peek(t, p + 1) == 0x75 {
      UnicodeBreaks(t, p, code);
    }
  }

  /** Parts in order up to where the string breaks off. */
  ghost predicate BreaksAfter(t: bytes, p: nat, chars: seq<Char>, code: ErrorCode, offset: nat) {
    CharsAt(t, p, chars) && offset == p + Length(chars) && StringBreaks(t, offset, code)
  }

  lemma BreaksNow(t: bytes, p: nat, out: bytes, code: ErrorCode)
    requires p <= |t| && StringBreaks(t, p, code)
    ensures Unescape(t, p, out) == Bad(code, p)
  {
    PieceBreaks(t, p, code);
  }

  /** A string that breaks off is refused there, with the code for the reason. */
  lemma {:induction false} StringRefused(
      t: bytes, p: nat, chars: seq<Char>, out: bytes, code: ErrorCode, offset: nat)
    requires p <= |t| && BreaksAfter(t, p, chars, code, offset)
    ensures Unescape(t, p, out) == Bad(code, offset)
    decreases |chars|
  {
    if chars == [] {
      BreaksNow(t, p, out, code);
    } else {
      var n, b := FirstOf(t, p, chars, out);
      StringRefused(t, p + n, chars[1..], out + b, code, offset);
    }
  }

  /** A string that is refused breaks off here, or has one more part. */
  lemma FailOrPut(t: bytes, p: nat, out: bytes, code: ErrorCode, offset: nat)
      returns (c: Option<Char>, q: nat, out': bytes)
    requires p <= |t| && Unescape(t, p, out) == Bad(code, offset)
    ensures c.None? ==> BreaksAfter(t, p, [], code, offset)
    ensures c.Some? ==> CharAt(t, p, c.value) && q == p + Width(c.value) && p < q <= |t|
    ensures c.Some? ==> Unescape(t, p, out) == Unescape(t, q, out')
  {
    c, q, out' := None, p, out;
    if PieceAt(t, p).Fail? {
      PieceBreaks(t, p, code);
    } else {
      var x;
      x, q, out' := PutFound(t, p, out);
      c := Some(x);
    }
  }

  lemma BreaksLater(t: bytes, p: nat, c: Char, rest: seq<Char>, chars: seq<Char>, code: ErrorCode, offset: nat)
    requires chars == [c] + rest && CharAt(t, p, c) && BreaksAfter(t, p + Width(c), rest, code, offset)
    ensures BreaksAfter(t, p, chars, code, offset)
  {
    FirstAnd(t, p, c, rest, chars);
  }

  /** What is refused is a string that breaks off. */
  lemma {:induction false} RefusedBreaks(t: bytes, p: nat, out: bytes, code: ErrorCode, offset: nat)
      returns (chars: seq<Char>)
    requires p <= |t| && Unescape(t, p, out) == Bad(code, offset)
    ensures BreaksAfter(t, p, chars, code, offset)
    decreases |t| - p
  {
    var c, q, out' := FailOrPut(t, p, out, code, offset);
    if c.None? {
      chars := [];
    } else {
      var rest := RefusedBreaks(t, q, out', code, offset);
      chars := [c.value] + rest;
      BreaksLater(t, p, c.value, rest, chars, code, offset);
    }
  }

  lemma PutFound(t: bytes, p: nat, out: bytes) returns (c: Char, q: nat, out': bytes)
    requires p <= |t| && PieceAt(t, p).Put?
    ensures CharAt(t, p, c) && q == p + Width(c) && p < q <= |t| && Unescape(t, p, out) == Unescape(t, q, out')
  {
    c := CharOfPiece(t, p);
    q, out' := p + Width(c), out + CharBytes(c);
    FirstTurn(t, p, c, out);
  }

  // ---------------------------------------------------------------- Numbers

  ghost predicate DigitMissing(t: bytes, p: nat) {
    !(0x30 <= Peek(t, p) <= 0x39)
  }

  /** A minus or none from `p` to `a`, then an integer part up to `b`. */
  ghost predicate IntegerAt(t: bytes, p: nat, a: nat, b: nat) {
    && a == (if Peek(t, p) == 0x2D then p + 1 else p)
    && if Peek(t, a) == 0x30 then b == a + 1 else DigitsAt(t, a, b)
  }

  /** A fraction or none from `b` to `c`. */
  ghost predicate FractionAt(t: bytes, b: nat, c: nat) {
    if Peek(t, b) == 0x2E then DigitsAt(t, b + 1, c) else c == b
  }

  /** The exponent of a number whose fraction ends at `c` has no digits at `q`. */
  ghost predicate ExponentBreaks(t: bytes, c: nat, q: nat) {
    && (Peek(t, c) == 0x65 || Peek(t, c) == 0x45) && DigitMissing(t, q)
    && q == if Peek(t, c + 1) == 0x2B || Peek(t, c + 1) == 0x2D then c + 2 else c + 1
  }

  /** A digit is missing at `q`, in the part of the number that the code names. */
  ghost predicate NumberBreaks(t: bytes, p: nat, code: ErrorCode, q: nat) {
    DigitMissing(t, q) &&
    match code
    case ValueInvalid => q == if Peek(t, p) == 0x2D then p + 1 else p
    case NumberMissFraction => exists a: nat, b: nat | IntegerAt(t, p, a, b) :: Peek(t, b) == 0x2E && q == b + 1
    case NumberMissExponent =>
      exists a: nat, b: nat, c: nat | IntegerAt(t, p, a, b) && FractionAt(t, b, c) :: ExponentBreaks(t, c, q)
    case _ => false
  }

  lemma IntegerIs(t: bytes, p: nat, a: nat, b: nat)
    requires p <= |t| && IntegerAt(t, p, a, b)
    ensures a < |t| && IsDigit(t[a]) && b == IntegerEnd(t, a)
    ensures ScanNumber(t, p) == ScanFraction(t, Peek(t, p) == MINUS, a, b)
  {
    IntegerScanned(t, a, b);
  }

  lemma IntegerExists(t: bytes, p: nat) returns (a: nat, b: nat)
    requires p <= |t| && !DigitMissing(t, if Peek(t, p) == 0x2D then p + 1 else p)
    ensures IntegerAt(t, p, a, b)
  {
    a := if Peek(t, p) == 0x2D then p + 1 else p;
    b := IntegerEnd(t, a);
    if t[a] != ZERO {
      EndIsDigitsAt(t, a);
    }
  }

  lemma FractionIs(t: bytes, minus: bool, a: nat, b: nat, c: nat) returns (l: Literal)
    requires a < b <= |t| && (forall i | a <= i < b :: IsDigit(t[i])) && FractionAt(t, b, c)
    ensures ValidLiteral(t, l) && l.fracEnd == l.exponentStart == l.end == c
    ensures ScanFraction(t, minus, a, b) == ScanExponent(t, l)
  {
    l := Literal(minus, a, b, c, c, false, c);
    if Peek(t, b) == DOT {
      DigitsEndAt(t, b + 1, c);
    }
  }

  lemma FractionExists(t: bytes, b: nat) returns (c: nat)
    requires Peek(t, b) == 0x2E ==> !DigitMissing(t, b + 1)
    ensures FractionAt(t, b, c)
  {
    c := b;
    if Peek(t, b) == DOT {
      c := DigitsEnd(t, b + 1);
      EndIsDigitsAt(t, b + 1);
    }
  }

  lemma FractionBroken(t: bytes, p: nat, a: nat, b: nat)
    requires p <= |t| && IntegerAt(t, p, a, b) && Peek(t, b) == 0x2E && DigitMissing(t, b + 1)
    ensures ScanNumber(t, p) == Wrong(NumberMissFraction, b + 1)
  {
    IntegerIs(t, p, a, b);
  }

  lemma ExponentLacks(t: bytes, l: Literal, q: nat)
    requires ValidLiteral(t, l) && l.fracEnd == l.exponentStart == l.end && ExponentBreaks(t, l.end, q)
    ensures ScanExponent(t, l) == Wrong(NumberMissExponent, q)
  {
  }

  lemma ExponentBroken(t: bytes, p: nat, a: nat, b: nat, c: nat, q: nat)
    requires p <= |t| && IntegerAt(t, p, a, b) && FractionAt(t, b, c) && ExponentBreaks(t, c, q)
    ensures ScanNumber(t, p) == Wrong(NumberMissExponent, q)
  {
    var l := ScannedTo(t, p, a, b, c);
    ExponentLacks(t, l, q);
  }

  lemma ScannedTo(t: bytes, p: nat, a: nat, b: nat, c: nat) returns (l: Literal)
    requires p <= |t| && IntegerAt(t, p, a, b) && FractionAt(t, b, c)
    ensures ValidLiteral(t, l) && l.fracEnd == l.exponentStart == l.end == c
    ensures ScanNumber(t, p) == ScanExponent(t, l)
  {
    IntegerIs(t, p, a, b);
    l := FractionIs(t, Peek(t, p) == MINUS, a, b, c);
  }

  /** A number that breaks off is refused there, with the code for the part that lacks a digit. */
  lemma NumberRefused(t: bytes, p: nat, code: ErrorCode, q: nat)
    requires p <= |t| && NumberBreaks(t, p, code, q)
    ensures ScanNumber(t, p) == Wrong(code, q)
  {
    match code
    case ValueInvalid =>
    case NumberMissFraction =>
      var a: nat, b: nat :| IntegerAt(t, p, a, b) && Peek(t, b) == 0x2E && q == b + 1;
      FractionBroken(t, p, a, b);
    case NumberMissExponent =>
      var a: nat, b: nat, c: nat :| IntegerAt(t, p, a, b) && FractionAt(t, b, c) && ExponentBreaks(t, c, q);
      ExponentBroken(t, p, a, b, c, q);
  }

  lemma ExponentWrong(t: bytes, l: Literal, code: ErrorCode, q: nat)
    requires ValidLiteral(t, l) && l.fracEnd == l.exponentStart == l.end && ScanExponent(t, l) == Wrong(code, q)
    ensures code == NumberMissExponent && ExponentBreaks(t, l.end, q)
  {
  }

  /** What is refused after an integer part. */
  lemma WrongAfterInteger(t: bytes, p: nat, a: nat, b: nat, code: ErrorCode, q: nat)
    requires p <= |t| && IntegerAt(t, p, a, b) && ScanNumber(t, p) == Wrong(code, q)
    ensures NumberBreaks(t, p, code, q)
  {
    if Peek(t, b) == 0x2E && DigitMissing(t, b + 1) {
      FractionBroken(t, p, a, b);
    } else {
      var c := FractionExists(t, b);
      var l := ScannedTo(t, p, a, b, c);
      ExponentWrong(t, l, code, q);
    }
  }

  /** What is refused for its form is a number that breaks off. */
  lemma WrongBreaks(t: bytes, p: nat, code: ErrorCode, q: nat)
    requires p <= |t| && ScanNumber(t, p) == Wrong(code, q)
    ensures NumberBreaks(t, p, code, q)
  {
    if !DigitMissing(t, if Peek(t, p) == 0x2D then p + 1 else p) {
      var a, b := IntegerExists(t, p);
      WrongAfterInteger(t, p, a, b, code, q);
    }
  }

  /** The verdict on a string that breaks off, as a value or as a name. */
  lemma QuoteRefused(
      cfg: Config, t: bytes, p: nat, isKey: bool, log: seq<Event>, chars: seq<Char>, code: ErrorCode, offset: nat)
    requires p < |t| && t[p] == 0x22 && BreaksAfter(t, p + 1, chars, code, offset)
    ensures Descent.Quote(cfg, t, p, isKey, log) == Halt(log, code, offset)
  {
    StringRefused(t, p + 1, chars, [], code, offset);
  }
}
