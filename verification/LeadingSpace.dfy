/**
 Parsing does not look back: a text that stands further on is parsed in the same way, so white space in front of a
 text changes no event.
 */
module LeadingSpace {
  import opened Bytes
  import opened Sax
  import opened Strings
  import opened Numbers
  import Descent
  import opened Pushdown
  import ParserEquivalence
  import GrammarLeaves
  import Utf8

  /** The same outcome `n` characters further on. */
  function Moved(o: Outcome, n: nat): (m: Outcome) {
    match o
    case Fine(pos, log) => Fine(n + pos, log)
    case Halt(log, code, offset) => Halt(log, code, n + offset)
  }

  /** The text `u` is `t` with `n` characters in front. */
  ghost predicate Behind(u: bytes, n: nat, t: bytes)
    decreases n, 1
  {
    |u| == n + |t| && Follows(u, n, t)
  }

  ghost predicate Follows(u: bytes, n: nat, t: bytes)
    requires |u| == n + |t|
    decreases n, 0
  {
    if n == 0 then u == t else Behind(u[1..], n - 1, t)
  }

  lemma {:induction false} PeekMoved(u: bytes, n: nat, t: bytes, p: nat)
    requires Behind(u, n, t)
    ensures Peek(u, n + p) == Peek(t, p)
    decreases n
  {
    assert Follows(u, n, t);
    if n > 0 {
      PeekMoved(u[1..], n - 1, t, p);
    }
  }

  lemma SliceMoved(u: bytes, n: nat, t: bytes, p: nat, q: nat)
    requires Behind(u, n, t) && p <= q <= |t|
    ensures u[n + p..n + q] == t[p..q]
  {
    forall k | 0 <= k < q - p
      ensures u[n + p..n + q][k] == t[p..q][k]
    {
      PeekMoved(u, n, t, p + k);
    }
  }

  // ---------------------------------------------------------------- Gaps

  lemma {:induction false} SkipSpaceMoved(u: bytes, n: nat, t: bytes, p: nat)
    requires Behind(u, n, t)
    requires p <= |t|
    ensures SkipSpace(u, n + p) == n + SkipSpace(t, p)
    decreases |t| - p
  {
    PeekMoved(u, n, t, p);
    if IsSpace(Peek(t, p)) {
      SkipSpaceMoved(u, n, t, p + 1);
    }
  }

  lemma {:induction false} BlockEndMoved(u: bytes, n: nat, t: bytes, p: nat)
    requires Behind(u, n, t)
    requires p <= |t|
    ensures BlockEnd(u, n + p) == if BlockEnd(t, p).Some? then Some(n + BlockEnd(t, p).value) else None
    decreases |t| - p
  {
    PeekMoved(u, n, t, p);
    PeekMoved(u, n, t, p + 1);
    if Peek(t, p) != 0 && !(Peek(t, p) == STAR && Peek(t, p + 1) == SLASH) {
      BlockEndMoved(u, n, t, p + 1);
    }
  }

  lemma {:induction false} TextEndMoved(u: bytes, n: nat, t: bytes, p: nat)
    requires Behind(u, n, t)
    requires p <= |t|
    ensures TextEnd(u, n + p) == n + TextEnd(t, p)
    decreases |t| - p
  {
    PeekMoved(u, n, t, p);
    if Peek(t, p) != 0 {
      TextEndMoved(u, n, t, p + 1);
    }
  }

  lemma {:induction false} LineEndMoved(u: bytes, n: nat, t: bytes, p: nat)
    requires Behind(u, n, t)
    requires p <= |t|
    ensures LineEnd(u, n + p) == n + LineEnd(t, p)
    decreases |t| - p
  {
    PeekMoved(u, n, t, p);
    if Peek(t, p) != 0 && t[p] != LINE_FEED {
      LineEndMoved(u, n, t, p + 1);
    }
  }

  /** One turn of skipping: nothing more to skip, a comment up to a position, or an error. */
  datatype Skip = Done(q: nat) | Again(r: nat) | Unclosed(offset: nat)

  function SkipOnce(cfg: Config, t: bytes, p: nat): (skip: Skip)
    requires p <= |t|
    ensures skip.Again? ==> p < skip.r <= |t|
  {
    var q := SkipSpace(t, p);
    if !cfg.comments || Peek(t, q) != SLASH then Done(q) else SkipComment(t, q)
  }

  function SkipComment(t: bytes, q: nat): (skip: Skip)
    requires q < |t|
    ensures skip.Again? ==> q < skip.r <= |t|
  {
    if Peek(t, q + 1) == STAR then
      match BlockEnd(t, q + 2)
      case Some(r) => Again(r)
      case None => Unclosed(TextEnd(t, q + 2))
    else if Peek(t, q + 1) == SLASH then Again(LineEnd(t, q + 2))
    else Unclosed(q + 1)
  }

  function MovedSkip(skip: Skip, n: nat): Skip {
    match skip
    case Done(q) => Done(n + q)
    case Again(r) => Again(n + r)
    case Unclosed(offset) => Unclosed(n + offset)
  }

  lemma CommentMoved(u: bytes, n: nat, t: bytes, q: nat)
    requires Behind(u, n, t)
    requires q < |t|
    ensures SkipComment(u, n + q) == MovedSkip(SkipComment(t, q), n)
  {
    PeekMoved(u, n, t, q + 1);
    if q + 2 <= |t| {
      BlockEndMoved(u, n, t, q + 2);
      TextEndMoved(u, n, t, q + 2);
      LineEndMoved(u, n, t, q + 2);
    }
  }

  lemma SkipMoved(cfg: Config, u: bytes, n: nat, t: bytes, p: nat)
    requires Behind(u, n, t)
    requires p <= |t|
    ensures SkipOnce(cfg, u, n + p) == MovedSkip(SkipOnce(cfg, t, p), n)
  {
    SkipSpaceMoved(u, n, t, p);
    var q := SkipSpace(t, p);
    PeekMoved(u, n, t, q);
    if q < |t| {
      CommentMoved(u, n, t, q);
    }
  }

  /** Skipping goes on after a comment, or ends. */
  lemma BlankSkips(cfg: Config, t: bytes, p: nat, log: seq<Event>, skip: Skip)
    requires p <= |t| && skip == SkipOnce(cfg, t, p)
    ensures skip.Done? ==> Blank(cfg, t, p, log) == Fine(skip.q, log)
    ensures skip.Again? ==> Blank(cfg, t, p, log) == Blank(cfg, t, skip.r, log)
    ensures skip.Unclosed? ==> Blank(cfg, t, p, log) == Halt(log, UnspecificSyntaxError, skip.offset)
  {
  }

  lemma {:induction false} BlankMoved(cfg: Config, u: bytes, n: nat, t: bytes, p: nat, log: seq<Event>)
    requires Behind(u, n, t)
    requires p <= |t|
    ensures Blank(cfg, u, n + p, log) == Moved(Blank(cfg, t, p, log), n)
    decreases |t| - p
  {
    var r := BlankOnce(cfg, u, n, t, p, log);
    if r.Some? {
      BlankMoved(cfg, u, n, t, r.value, log);
      BlankJoins(cfg, u, n, t, p, r.value, log);
    }
  }

  lemma BlankOnce(cfg: Config, u: bytes, n: nat, t: bytes, p: nat, log: seq<Event>) returns (r: Option<nat>)
    requires Behind(u, n, t)
    requires p <= |t|
    ensures r.None? ==> Blank(cfg, u, n + p, log) == Moved(Blank(cfg, t, p, log), n)
    ensures r.Some? ==> p < r.value <= |t| && Blank(cfg, t, p, log) == Blank(cfg, t, r.value, log)
    ensures r.Some? ==> Blank(cfg, u, n + p, log) == Blank(cfg, u, n + r.value, log)
  {
    var skip := SkipOnce(cfg, t, p);
    SkipMoved(cfg, u, n, t, p);
    BlankSkips(cfg, t, p, log, skip);
    BlankSkips(cfg, u, n + p, log, MovedSkip(skip, n));
    r := if skip.Again? then Some(skip.r) else None;
  }

  lemma BlankJoins(cfg: Config, u: bytes, n: nat, t: bytes, p: nat, r: nat, log: seq<Event>)
    requires p <= |t| && n + p <= |u| && r <= |t| && n + r <= |u|
    requires Blank(cfg, t, p, log) == Blank(cfg, t, r, log) && Blank(cfg, u, n + p, log) == Blank(cfg, u, n + r, log)
    requires Blank(cfg, u, n + r, log) == Moved(Blank(cfg, t, r, log), n)
    ensures Blank(cfg, u, n + p, log) == Moved(Blank(cfg, t, p, log), n)
  {
  }

  // ---------------------------------------------------------------- Words and strings

  lemma {:induction false} MatchedMoved(u: bytes, n: nat, t: bytes, p: nat, word: bytes)
    requires Behind(u, n, t)
    requires p <= |t| && 0 !in word
    ensures Descent.Matched(u, n + p, word) == Descent.Matched(t, p, word)
    decreases |word|
  {
    PeekMoved(u, n, t, p);
    if word != [] && Peek(t, p) == word[0] {
      assert word == [word[0]] + word[1..];
      MatchedMoved(u, n, t, p + 1, word[1..]);
    }
  }

  lemma Hex4Moved(u: bytes, n: nat, t: bytes, p: nat)
    requires Behind(u, n, t)
    ensures Hex4(u, n + p) == Hex4(t, p)
  {
    PeekMoved(u, n, t, p);
    PeekMoved(u, n, t, p + 1);
    PeekMoved(u, n, t, p + 2);
    PeekMoved(u, n, t, p + 3);
  }

  function MovedPiece(piece: Piece, n: nat): Piece {
    match piece
    case Close(next) => Close(n + next)
    case Put(units, next) => Put(units, n + next)
    case Fail(code, offset) => Fail(code, n + offset)
  }

  /** The second half of a pair, by the two characters before it and its digits. */
  function SurrogateBy(b: byte, e: byte, low: Option<nat>, high: nat, p: nat): Piece
    requires 0xD800 <= high <= 0xDBFF
  {
    if b != BACKSLASH || e != LETTER_U then Fail(StringUnicodeSurrogateInvalid, p)
    else if low.None? then Fail(StringUnicodeEscapeInvalidHex, p)
    else if low.value < 0xDC00 || low.value > 0xDFFF then Fail(StringUnicodeSurrogateInvalid, p)
    else Put(Utf8.Encode((high - 0xD800) * 0x400 + (low.value - 0xDC00) + 0x10000), p + 12)
  }

  lemma SurrogateIsBy(t: bytes, p: nat, b: byte, e: byte, low: Option<nat>, high: nat)
    requires 0xD800 <= high <= 0xDBFF
    requires b == Peek(t, p + 6) && e == Peek(t, p + 7) && low == Hex4(t, p + 8)
    ensures SurrogateAt(t, p, high) == SurrogateBy(b, e, low, high, p)
  {
  }

  lemma SurrogateMoved(u: bytes, n: nat, t: bytes, p: nat, high: nat)
    requires Behind(u, n, t)
    requires 0xD800 <= high <= 0xDBFF
    ensures SurrogateAt(u, n + p, high) == MovedPiece(SurrogateAt(t, p, high), n)
  {
    PeekMoved(u, n, t, p + 6);
    PeekMoved(u, n, t, p + 7);
    Hex4Moved(u, n, t, p + 8);
    SurrogateIsBy(t, p, Peek(t, p + 6), Peek(t, p + 7), Hex4(t, p + 8), high);
    SurrogateIsBy(u, n + p, Peek(t, p + 6), Peek(t, p + 7), Hex4(t, p + 8), high);
  }

  /** An escape, by its letter, its digits and what a first half leads to. */
  function EscapeBy(e: byte, cp: Option<nat>, pair: Piece, p: nat): Piece {
    if SimpleEscape(e).Some? then Put([SimpleEscape(e).value], p + 2)
    else if e != LETTER_U then Fail(StringEscapeInvalid, p)
    else if cp.None? || cp.value > 0xFFFF then Fail(StringUnicodeEscapeInvalidHex, p)
    else if 0xD800 <= cp.value <= 0xDBFF then pair
    else Put(Utf8.Encode(cp.value), p + 6)
  }

  lemma EscapeIsBy(t: bytes, p: nat, e: byte, cp: Option<nat>, pair: Piece)
    requires p < |t| && t[p] == BACKSLASH && e == Peek(t, p + 1) && cp == Hex4(t, p + 2)
    requires cp.Some? && 0xD800 <= cp.value <= 0xDBFF ==> pair == SurrogateAt(t, p, cp.value)
    ensures EscapeAt(t, p) == EscapeBy(e, cp, pair, p)
  {
  }

  lemma EscapeByMoved(e: byte, cp: Option<nat>, pair: Piece, p: nat, n: nat)
    ensures EscapeBy(e, cp, MovedPiece(pair, n), n + p) == MovedPiece(EscapeBy(e, cp, pair, p), n)
  {
  }

  lemma EscapeMoved(u: bytes, n: nat, t: bytes, p: nat)
    requires Behind(u, n, t)
    requires p < |t| && t[p] == BACKSLASH && u[n + p] == BACKSLASH
    ensures EscapeAt(u, n + p) == MovedPiece(EscapeAt(t, p), n)
  {
    var e, cp := Peek(t, p + 1), Hex4(t, p + 2);
    PeekMoved(u, n, t, p + 1);
    Hex4Moved(u, n, t, p + 2);
    var pair := Close(0);
    if cp.Some? && 0xD800 <= cp.value <= 0xDBFF {
      pair := SurrogateAt(t, p, cp.value);
      SurrogateMoved(u, n, t, p, cp.value);
    }
    EscapeIsBy(t, p, e, cp, pair);
    EscapeIsBy(u, n + p, e, cp, MovedPiece(pair, n));
    EscapeByMoved(e, cp, pair, p, n);
  }

  lemma PieceMoved(u: bytes, n: nat, t: bytes, p: nat)
    requires Behind(u, n, t)
    requires p <= |t|
    ensures PieceAt(u, n + p) == MovedPiece(PieceAt(t, p), n)
  {
    PeekMoved(u, n, t, p);
    if Peek(t, p) == BACKSLASH {
      EscapeMoved(u, n, t, p);
    }
  }

  function MovedDecoded(d: Decoded, n: nat): Decoded {
    match d
    case Text(str, next) => Text(str, n + next)
    case Bad(code, offset) => Bad(code, n + offset)
  }

  lemma {:induction false} UnescapeMoved(u: bytes, n: nat, t: bytes, p: nat, out: bytes)
    requires Behind(u, n, t)
    requires p <= |t|
    ensures Unescape(u, n + p, out) == MovedDecoded(Unescape(t, p, out), n)
    decreases |t| - p
  {
    PieceMoved(u, n, t, p);
    var piece := PieceAt(t, p);
    if piece.Put? {
      UnescapeMoved(u, n, t, piece.next, out + piece.units);
    }
  }

  lemma QuoteMoved(cfg: Config, u: bytes, n: nat, t: bytes, p: nat, isKey: bool, log: seq<Event>)
    requires Behind(u, n, t)
    requires p < |t|
    ensures Descent.Quote(cfg, u, n + p, isKey, log) == Moved(Descent.Quote(cfg, t, p, isKey, log), n)
  {
    UnescapeMoved(u, n, t, p + 1, []);
  }

  // ---------------------------------------------------------------- Numbers

  lemma {:induction false} DigitsEndMoved(u: bytes, n: nat, t: bytes, p: nat)
    requires Behind(u, n, t)
    requires p <= |t|
    ensures DigitsEnd(u, n + p) == n + DigitsEnd(t, p)
    decreases |t| - p
  {
    PeekMoved(u, n, t, p);
    if IsDigit(Peek(t, p)) {
      DigitsEndMoved(u, n, t, p + 1);
    }
  }

  lemma DigitsMoved(u: bytes, n: nat, t: bytes, p: nat, q: nat)
    requires Behind(u, n, t)
    requires p <= q <= |t| && forall i | p <= i < q :: IsDigit(t[i])
    ensures forall i | n + p <= i < n + q :: IsDigit(u[i])
  {
    forall i | n + p <= i < n + q
      ensures IsDigit(u[i])
    {
      PeekMoved(u, n, t, i - n);
      assert IsDigit(t[i - n]);
    }
  }

  lemma {:induction false} DigitsValueMoved(u: bytes, n: nat, t: bytes, p: nat, q: nat)
    requires Behind(u, n, t)
    requires p <= q <= |t| && (forall i | p <= i < q :: IsDigit(t[i]))
    ensures forall i | n + p <= i < n + q :: IsDigit(u[i])
    ensures DigitsValue(u, n + p, n + q) == DigitsValue(t, p, q)
    decreases q
  {
    DigitsMoved(u, n, t, p, q);
    if p < q {
      DigitsValueMoved(u, n, t, p, q - 1);
      PeekMoved(u, n, t, q - 1);
    }
  }

  lemma {:induction false} FoldCountMoved(u: bytes, n: nat, t: bytes, q: nat, e: nat, significand: nat, digits: nat)
    requires Behind(u, n, t)
    requires q <= e <= |t| && (forall i | q <= i < e :: IsDigit(t[i]))
    ensures forall i | n + q <= i < n + e :: IsDigit(u[i])
    ensures FoldCount(u, n + q, n + e, significand, digits) == FoldCount(t, q, e, significand, digits)
    decreases e - q
  {
    DigitsMoved(u, n, t, q, e);
    if q < e && significand <= MAX_EXACT_DOUBLE {
      PeekMoved(u, n, t, q);
      var next := significand * 10 + DigitOf(t[q]);
      FoldCountMoved(u, n, t, q + 1, e, next, if next != 0 then digits + 1 else digits);
    }
  }

  function MovedLiteral(l: Literal, n: nat): Literal {
    Literal(l.minus, n + l.intStart, n + l.intEnd, n + l.fracEnd, n + l.exponentStart, l.exponentMinus, n + l.end)
  }

  lemma ValidMoved(u: bytes, n: nat, t: bytes, l: Literal)
    requires Behind(u, n, t)
    requires ValidLiteral(t, l)
    ensures ValidLiteral(u, MovedLiteral(l, n))
  {
    DigitsMoved(u, n, t, l.intStart, l.intEnd);
    if l.fracEnd > l.intEnd {
      DigitsMoved(u, n, t, l.intEnd + 1, l.fracEnd);
    }
    DigitsMoved(u, n, t, l.exponentStart, l.end);
  }

  function MovedScan(s: Scan, n: nat): Scan {
    match s
    case Found(l) => Found(MovedLiteral(l, n))
    case Wrong(code, offset) => Wrong(code, n + offset)
  }

  /** The result of scanning an exponent, by what stands after the mantissa `l`. */
  function ExponentOf(l: Literal, e: bool, sign: byte, more: bool, end: nat): Scan {
    var d := if sign == PLUS || sign == MINUS then l.end + 2 else l.end + 1;
    if !e then Found(l)
    else if more then Found(l.(exponentStart := d, exponentMinus := sign == MINUS, end := end))
    else Wrong(NumberMissExponent, d)
  }

  lemma ExponentIsOf(t: bytes, l: Literal, e: bool, sign: byte, d: nat, more: bool, end: nat)
    requires ValidLiteral(t, l) && l.fracEnd == l.exponentStart == l.end
    requires (e <==> Peek(t, l.end) == 0x65 || Peek(t, l.end) == 0x45) && sign == Peek(t, l.end + 1)
    requires d == (if sign == PLUS || sign == MINUS then l.end + 2 else l.end + 1) && (more <==> IsDigit(Peek(t, d)))
    requires e && more ==> end == DigitsEnd(t, d)
    ensures ScanExponent(t, l) == ExponentOf(l, e, sign, more, end)
  {
  }

  lemma ExponentOfMoved(l: Literal, e: bool, sign: byte, more: bool, end: nat, n: nat)
    requires l.exponentStart == l.end
    ensures ExponentOf(MovedLiteral(l, n), e, sign, more, n + end) == MovedScan(ExponentOf(l, e, sign, more, end), n)
  {
  }

  lemma ExponentMoved(u: bytes, n: nat, t: bytes, l: Literal, m: Literal)
    requires Behind(u, n, t)
    requires ValidLiteral(t, l) && l.fracEnd == l.exponentStart == l.end
    requires ValidLiteral(u, m) && m == MovedLiteral(l, n)
    ensures ScanExponent(u, m) == MovedScan(ScanExponent(t, l), n)
  {
    var c := l.end;
    PeekMoved(u, n, t, c);
    PeekMoved(u, n, t, c + 1);
    var e, sign := Peek(t, c) == 0x65 || Peek(t, c) == 0x45, Peek(t, c + 1);
    var d := if sign == PLUS || sign == MINUS then c + 2 else c + 1;
    PeekMoved(u, n, t, d);
    var more, end := IsDigit(Peek(t, d)), 0;
    if more {
      DigitsEndMoved(u, n, t, d);
      end := DigitsEnd(t, d);
    }
    ExponentsAre(u, n, t, l, m, e, sign, d, more, end);
  }

  lemma ExponentsAre(
    u: bytes, n: nat, t: bytes, l: Literal, m: Literal, e: bool, sign: byte, d: nat, more: bool, end: nat)
    requires ValidLiteral(t, l) && l.fracEnd == l.exponentStart == l.end
    requires ValidLiteral(u, m) && m == MovedLiteral(l, n)
    requires d == (if sign == PLUS || sign == MINUS then l.end + 2 else l.end + 1)
    requires (e <==> Peek(t, l.end) == 0x65 || Peek(t, l.end) == 0x45) && sign == Peek(t, l.end + 1)
    requires (more <==> IsDigit(Peek(t, d))) && (e && more ==> end == DigitsEnd(t, d))
    requires (e <==> Peek(u, m.end) == 0x65 || Peek(u, m.end) == 0x45) && sign == Peek(u, m.end + 1)
    requires (more <==> IsDigit(Peek(u, n + d))) && (e && more ==> n + end == DigitsEnd(u, n + d))
    ensures ScanExponent(u, m) == MovedScan(ScanExponent(t, l), n)
  {
    ExponentIsOf(t, l, e, sign, d, more, end);
    ExponentIsOf(u, m, e, sign, n + d, more, n + end);
    ExponentOfMoved(l, e, sign, more, end, n);
  }

  lemma ScanMoved(u: bytes, n: nat, t: bytes, p: nat)
    requires Behind(u, n, t)
    requires p <= |t|
    ensures ScanNumber(u, n + p) == MovedScan(ScanNumber(t, p), n)
  {
    PeekMoved(u, n, t, p);
    var minus := Peek(t, p) == MINUS;
    var a := if minus then p + 1 else p;
    PeekMoved(u, n, t, a);
    if IsDigit(Peek(t, a)) {
      DigitsEndMoved(u, n, t, a);
      var b := IntegerEnd(t, a);
      MantissaMoved(u, n, t, p, minus, a, b);
    }
  }

  lemma MantissaMoved(u: bytes, n: nat, t: bytes, p: nat, minus: bool, a: nat, b: nat)
    requires Behind(u, n, t)
    requires IntegerPart(t, p, minus, a, b) && IntegerPart(u, n + p, minus, n + a, n + b)
    ensures ScanNumber(u, n + p) == MovedScan(ScanNumber(t, p), n)
  {
    PeekMoved(u, n, t, b);
    PeekMoved(u, n, t, b + 1);
    if Peek(t, b) != DOT {
      NoFractionMoved(u, n, t, p, minus, a, b);
    } else if IsDigit(Peek(t, b + 1)) {
      DigitsEndMoved(u, n, t, b + 1);
      FractionMoved(u, n, t, p, minus, a, b, DigitsEnd(t, b + 1));
    } else {
      FractionMissing(t, p, minus, a, b);
      FractionMissing(u, n + p, minus, n + a, n + b);
    }
  }

  lemma NoFractionMoved(u: bytes, n: nat, t: bytes, p: nat, minus: bool, a: nat, b: nat)
    requires Behind(u, n, t)
    requires IntegerPart(t, p, minus, a, b) && IntegerPart(u, n + p, minus, n + a, n + b)
    requires Peek(t, b) != DOT && Peek(u, n + b) != DOT
    ensures ScanNumber(u, n + p) == MovedScan(ScanNumber(t, p), n)
  {
    var l := NoFraction(t, p, minus, a, b);
    var m := NoFraction(u, n + p, minus, n + a, n + b);
    MantissaJoins(u, n, t, p, l, m);
  }

  lemma FractionMoved(u: bytes, n: nat, t: bytes, p: nat, minus: bool, a: nat, b: nat, f: nat)
    requires Behind(u, n, t)
    requires IntegerPart(t, p, minus, a, b) && IntegerPart(u, n + p, minus, n + a, n + b)
    requires Peek(t, b) == DOT && Peek(u, n + b) == DOT
    requires IsDigit(Peek(t, b + 1)) && IsDigit(Peek(u, n + b + 1))
    requires f == DigitsEnd(t, b + 1) && n + f == DigitsEnd(u, n + b + 1)
    ensures ScanNumber(u, n + p) == MovedScan(ScanNumber(t, p), n)
  {
    var l := WithFraction(t, p, minus, a, b);
    var m := WithFraction(u, n + p, minus, n + a, n + b);
    assert m == MovedLiteral(l, n);
    MantissaJoins(u, n, t, p, l, m);
  }

  lemma MantissaJoins(u: bytes, n: nat, t: bytes, p: nat, l: Literal, m: Literal)
    requires Behind(u, n, t)
    requires ValidLiteral(t, l) && l.fracEnd == l.exponentStart == l.end
    requires ValidLiteral(u, m) && m == MovedLiteral(l, n)
    requires p <= |t| && ScanNumber(t, p) == ScanExponent(t, l)
    requires n + p <= |u| && ScanNumber(u, n + p) == ScanExponent(u, m)
    ensures ScanNumber(u, n + p) == MovedScan(ScanNumber(t, p), n)
  {
    ExponentMoved(u, n, t, l, m);
  }

  lemma ValueMoved(u: bytes, n: nat, t: bytes, l: Literal, m: Literal)
    requires Behind(u, n, t)
    requires ValidLiteral(t, l) && ValidLiteral(u, m) && m == MovedLiteral(l, n)
    ensures IntegerValue(u, m) == IntegerValue(t, l)
    ensures DigitsValue(u, m.exponentStart, m.end) == DigitsValue(t, l.exponentStart, l.end)
  {
    DigitsValueMoved(u, n, t, l.intStart, l.intEnd);
    DigitsValueMoved(u, n, t, l.exponentStart, l.end);
  }

  lemma ShiftMoved(u: bytes, n: nat, t: bytes, l: Literal, m: Literal)
    requires Behind(u, n, t)
    requires ValidLiteral(t, l) && ValidLiteral(u, m) && m == MovedLiteral(l, n)
    requires IntegerValue(u, m) == IntegerValue(t, l)
    ensures FractionShift(u, m) == FractionShift(t, l)
  {
    if l.fracEnd > l.intEnd {
      FoldCountMoved(u, n, t, l.intEnd + 1, l.fracEnd, IntegerValue(t, l), l.intEnd - l.intStart - 1);
    }
  }

  lemma TooBigMoved(u: bytes, n: nat, t: bytes, l: Literal, m: Literal)
    requires Behind(u, n, t)
    requires ValidLiteral(t, l) && ValidLiteral(u, m) && m == MovedLiteral(l, n)
    ensures IntegerValue(u, m) == IntegerValue(t, l) && ExponentTooBig(u, m) == ExponentTooBig(t, l)
  {
    ValueMoved(u, n, t, l, m);
    ShiftMoved(u, n, t, l, m);
  }

  /** What becomes of a number, by what matters about it. */
  function NumberOf(
    cfg: Config, minus: bool, whole: bool, v: nat, tooBig: bool, text: bytes, end: nat, p: nat, log: seq<Event>)
    : Outcome
  {
    if whole && IntegerEvent(minus, v).Some? then Emit(cfg, log, IntegerEvent(minus, v).value, end, p)
    else if tooBig || cfg.overflows(text) then Halt(log, NumberTooBig, p)
    else Emit(cfg, log, Double(text), end, p)
  }

  lemma NumberIsOf(cfg: Config, t: bytes, p: nat, log: seq<Event>, l: Literal, v: nat, tooBig: bool, text: bytes)
    requires p <= |t| && ScanNumber(t, p) == Found(l) && p <= l.end && text == t[p..l.end]
    requires v == IntegerValue(t, l) && tooBig == ExponentTooBig(t, l)
    ensures Number(cfg, t, p, log) == NumberOf(cfg, l.minus, l.end == l.intEnd, v, tooBig, text, l.end, p, log)
  {
  }

  /** Both numbers have the same facts. */
  lemma BothAre(
    cfg: Config, t: bytes, u: bytes, p: nat, q: nat, log: seq<Event>, l: Literal, m: Literal, v: nat, tooBig: bool,
    text: bytes)
    requires p <= |t| && ScanNumber(t, p) == Found(l) && p <= l.end && text == t[p..l.end]
    requires v == IntegerValue(t, l) && tooBig == ExponentTooBig(t, l)
    requires q <= |u| && ScanNumber(u, q) == Found(m) && q <= m.end && text == u[q..m.end]
    requires v == IntegerValue(u, m) && tooBig == ExponentTooBig(u, m) && (l.end == l.intEnd <==> m.end == m.intEnd)
    ensures Number(cfg, t, p, log) == NumberOf(cfg, l.minus, l.end == l.intEnd, v, tooBig, text, l.end, p, log)
    ensures Number(cfg, u, q, log) == NumberOf(cfg, m.minus, l.end == l.intEnd, v, tooBig, text, m.end, q, log)
  {
    NumberIsOf(cfg, t, p, log, l, v, tooBig, text);
    NumberIsOf(cfg, u, q, log, m, v, tooBig, text);
  }

  lemma OfMoved(
    cfg: Config, minus: bool, whole: bool, v: nat, tooBig: bool, text: bytes, end: nat, p: nat, log: seq<Event>,
    n: nat, o: Outcome, o2: Outcome)
    requires o == NumberOf(cfg, minus, whole, v, tooBig, text, end, p, log)
    requires o2 == NumberOf(cfg, minus, whole, v, tooBig, text, n + end, n + p, log)
    ensures o2 == Moved(o, n)
  {
  }

  lemma FoundMoved(
    cfg: Config, u: bytes, n: nat, t: bytes, p: nat, log: seq<Event>, l: Literal, m: Literal, v: nat, tooBig: bool,
    text: bytes)
    requires p <= |t| && ScanNumber(t, p) == Found(l) && p <= l.end && text == t[p..l.end]
    requires n + p <= |u| && ScanNumber(u, n + p) == Found(m) && text == u[n + p..m.end]
    requires m.minus == l.minus && m.end == n + l.end && (m.end == m.intEnd <==> l.end == l.intEnd)
    requires v == IntegerValue(t, l) && tooBig == ExponentTooBig(t, l)
    requires v == IntegerValue(u, m) && tooBig == ExponentTooBig(u, m)
    ensures Number(cfg, u, n + p, log) == Moved(Number(cfg, t, p, log), n)
  {
    BothAre(cfg, t, u, p, n + p, log, l, m, v, tooBig, text);
    OfMoved(cfg, l.minus, l.end == l.intEnd, v, tooBig, text, l.end, p, log, n,
      Number(cfg, t, p, log), Number(cfg, u, n + p, log));
  }

  lemma NumberMoved(cfg: Config, u: bytes, n: nat, t: bytes, p: nat, log: seq<Event>)
    requires Behind(u, n, t)
    requires p <= |t|
    ensures Number(cfg, u, n + p, log) == Moved(Number(cfg, t, p, log), n)
  {
    ScanMoved(u, n, t, p);
    match ScanNumber(t, p)
    case Wrong(code, offset) => WrongMoved(cfg, u, n, t, p, log, code, offset);
    case Found(l) =>
      var m := MovedLiteral(l, n);
      SliceMoved(u, n, t, p, l.end);
      TooBigMoved(u, n, t, l, m);
      FoundMoved(cfg, u, n, t, p, log, l, m, IntegerValue(t, l), ExponentTooBig(t, l), t[p..l.end]);
  }

  lemma WrongMoved(cfg: Config, u: bytes, n: nat, t: bytes, p: nat, log: seq<Event>, code: ErrorCode, offset: nat)
    requires Behind(u, n, t)
    requires p <= |t| && ScanNumber(t, p) == Wrong(code, offset)
    requires ScanNumber(u, n + p) == Wrong(code, n + offset)
    ensures Number(cfg, u, n + p, log) == Moved(Number(cfg, t, p, log), n)
  {
    NumberWrong(cfg, t, p, log, code, offset);
    NumberWrong(cfg, u, n + p, log, code, n + offset);
    HaltsMoved(Number(cfg, t, p, log), Number(cfg, u, n + p, log), log, code, offset, n);
  }

  lemma HaltsMoved(o: Outcome, o2: Outcome, log: seq<Event>, code: ErrorCode, offset: nat, n: nat)
    requires o == Halt(log, code, offset) && o2 == Halt(log, code, n + offset)
    ensures o2 == Moved(o, n)
  {
  }

  // ---------------------------------------------------------------- Values that are no containers

  lemma WordMoved(cfg: Config, u: bytes, n: nat, t: bytes, p: nat, word: bytes, e: Event, log: seq<Event>)
    requires Behind(u, n, t)
    requires p <= |t| && 0 !in word && word != [] && (e.Null? || e.Bool?)
    ensures Descent.Word(cfg, u, n + p, word, e, log) == Moved(Descent.Word(cfg, t, p, word, e, log), n)
  {
    MatchedMoved(u, n, t, p, word);
  }

  lemma ScalarMoved(cfg: Config, u: bytes, n: nat, t: bytes, p: nat, log: seq<Event>)
    requires Behind(u, n, t)
    requires p <= |t|
    ensures Descent.Scalar(cfg, u, n + p, log) == Moved(Descent.Scalar(cfg, t, p, log), n)
  {
    PeekMoved(u, n, t, p);
    var c := Peek(t, p);
    if c == LETTER_N {
      WordMoved(cfg, u, n, t, p, NULL_WORD, Null, log);
    } else if c == LETTER_T {
      WordMoved(cfg, u, n, t, p, TRUE_WORD, Bool(true), log);
    } else if c == LETTER_F {
      WordMoved(cfg, u, n, t, p, FALSE_WORD, Bool(false), log);
    } else if c == QUOTE {
      QuoteMoved(cfg, u, n, t, p, false, log);
    } else {
      NumberMoved(cfg, u, n, t, p, log);
    }
  }

  // ---------------------------------------------------------------- The table-driven parser

  function MovedTurn(turn: Turn, n: nat): Turn {
    match turn
    case Go(m) => Go(m.(pos := n + m.pos))
    case Stop(o) => Stop(Moved(o, n))
  }

  /** One transition, by the state it leads to and the outcome of the leaf, if there is one. */
  function NextOf(cfg: Config, m: Machine, dst: State, leaf: Outcome): Turn {
    match dst
    case ObjectInitial => Open(cfg, m, dst)
    case ArrayInitial => Open(cfg, m, dst)
    case MemberKey => Continue(leaf, dst, m.frames)
    case KeyValueDelimiter => Go(m.(state := dst, pos := m.pos + 1))
    case MemberDelimiter => Comma(m, dst)
    case ElementDelimiter => Comma(m, dst)
    case ObjectFinish =>
      if !cfg.trailingCommas && m.state == MemberDelimiter then Stop(Halt(m.log, ObjectMissName, m.pos))
      else Pushdown.Close(cfg, m)
    case ArrayFinish =>
      if !cfg.trailingCommas && m.state == ElementDelimiter then Stop(Halt(m.log, ValueInvalid, m.pos))
      else Pushdown.Close(cfg, m)
    case Error => Stop(Halt(m.log, ErrorIn(m.state), m.pos))
    case _ => Continue(leaf, if dst == SingleValue then Finish else dst, m.frames)
  }

  function Leaf(cfg: Config, t: bytes, m: Machine, dst: State): Outcome
    requires m.pos < |t|
  {
    if dst.MemberKey? then Descent.Quote(cfg, t, m.pos, true, m.log) else Descent.Scalar(cfg, t, m.pos, m.log)
  }

  lemma NextIsOf(cfg: Config, t: bytes, m: Machine, dst: State, leaf: Outcome)
    requires m.pos < |t| && dst == Predict(m.state, Tokenize(t[m.pos])) && leaf == Leaf(cfg, t, m, dst)
    ensures Next(cfg, t, m) == NextOf(cfg, m, dst, leaf)
  {
  }

  lemma NextOfMoved(cfg: Config, m: Machine, m2: Machine, dst: State, leaf: Outcome, n: nat)
    requires m2 == m.(pos := n + m.pos)
    ensures NextOf(cfg, m2, dst, Moved(leaf, n)) == MovedTurn(NextOf(cfg, m, dst, leaf), n)
  {
  }

  lemma LeafMoved(cfg: Config, u: bytes, n: nat, t: bytes, m: Machine, m2: Machine, dst: State)
    requires Behind(u, n, t)
    requires m.pos < |t| && m2 == m.(pos := n + m.pos)
    ensures Leaf(cfg, u, m2, dst) == Moved(Leaf(cfg, t, m, dst), n)
  {
    if dst.MemberKey? {
      QuoteMoved(cfg, u, n, t, m.pos, true, m.log);
    } else {
      ScalarMoved(cfg, u, n, t, m.pos, m.log);
    }
  }

  lemma NextMoved(cfg: Config, u: bytes, n: nat, t: bytes, m: Machine, m2: Machine)
    requires Behind(u, n, t)
    requires m.pos < |t| && m2 == m.(pos := n + m.pos)
    ensures Next(cfg, u, m2) == MovedTurn(Next(cfg, t, m), n)
  {
    PeekMoved(u, n, t, m.pos);
    var dst := Predict(m.state, Tokenize(t[m.pos]));
    var leaf := Leaf(cfg, t, m, dst);
    LeafMoved(cfg, u, n, t, m, m2, dst);
    NextIsOf(cfg, t, m, dst, leaf);
    NextIsOf(cfg, u, m2, dst, Moved(leaf, n));
    NextOfMoved(cfg, m, m2, dst, leaf, n);
  }

  lemma {:induction false} RunMoved(cfg: Config, u: bytes, n: nat, t: bytes, m: Machine, m2: Machine)
    requires Behind(u, n, t)
    requires m.pos <= |t| && m2 == m.(pos := n + m.pos)
    ensures Run(cfg, u, m2) == Moved(Run(cfg, t, m), n)
    decreases |t| - m.pos, 0
  {
    PeekMoved(u, n, t, m.pos);
    if Peek(t, m.pos) == 0 {
      RunEnds(cfg, t, m);
      RunEnds(cfg, u, m2);
    } else {
      NextMoved(cfg, u, n, t, m, m2);
      match Next(cfg, t, m)
      case Stop(o) =>
        ParserEquivalence.RunStops(cfg, t, m, o);
        ParserEquivalence.RunStops(cfg, u, m2, Moved(o, n));
      case Go(next) =>
        ParserEquivalence.RunGoes(cfg, t, m, next);
        ParserEquivalence.RunGoes(cfg, u, m2, next.(pos := n + next.pos));
        ResumeMoved(cfg, u, n, t, next, next.(pos := n + next.pos));
        RanMoved(cfg, u, n, t, m, m2, next, next.(pos := n + next.pos));
    }
  }

  lemma RunEnds(cfg: Config, t: bytes, m: Machine)
    requires m.pos <= |t| && Peek(t, m.pos) == 0
    ensures Run(cfg, t, m) == if m.state == Finish then Fine(m.pos, m.log) else Halt(m.log, ErrorIn(m.state), m.pos)
  {
  }

  lemma RanMoved(cfg: Config, u: bytes, n: nat, t: bytes, m: Machine, m2: Machine, x: Machine, x2: Machine)
    requires m.pos <= |t| && m2.pos <= |u| && x.pos <= |t| && x2.pos <= |u|
    requires Run(cfg, t, m) == Resume(cfg, t, x) && Run(cfg, u, m2) == Resume(cfg, u, x2)
    requires Resume(cfg, u, x2) == Moved(Resume(cfg, t, x), n)
    ensures Run(cfg, u, m2) == Moved(Run(cfg, t, m), n)
  {
  }

  lemma ResumeRuns(cfg: Config, t: bytes, m: Machine, q: nat)
    requires m.pos <= |t| && Blank(cfg, t, m.pos, m.log) == Fine(q, m.log) && !(cfg.stopWhenDone && m.state == Finish)
    ensures Resume(cfg, t, m) == Run(cfg, t, m.(pos := q))
  {
  }

  lemma ResumesRun(cfg: Config, u: bytes, n: nat, t: bytes, m: Machine, m2: Machine, q: nat)
    requires m.pos <= |t| && m2 == m.(pos := n + m.pos) && m2.pos <= |u| && q <= |t| && n + q <= |u|
    requires Blank(cfg, t, m.pos, m.log) == Fine(q, m.log) && Blank(cfg, u, m2.pos, m.log) == Fine(n + q, m.log)
    requires !(cfg.stopWhenDone && m.state == Finish)
    ensures Resume(cfg, t, m) == Run(cfg, t, m.(pos := q)) && Resume(cfg, u, m2) == Run(cfg, u, m.(pos := n + q))
  {
    ResumeRuns(cfg, t, m, q);
    ResumeRuns(cfg, u, m2, n + q);
  }

  lemma ResumeEnds(cfg: Config, t: bytes, m: Machine, next: Outcome)
    requires m.pos <= |t| && Blank(cfg, t, m.pos, m.log) == next
    requires (cfg.stopWhenDone && m.state == Finish) || next.Halt?
    ensures Resume(cfg, t, m) == if cfg.stopWhenDone && m.state == Finish then Fine(m.pos, m.log) else next
  {
  }

  lemma ResumesEnd(cfg: Config, u: bytes, n: nat, t: bytes, m: Machine, m2: Machine, next: Outcome)
    requires m.pos <= |t| && m2 == m.(pos := n + m.pos) && m2.pos <= |u|
    requires Blank(cfg, t, m.pos, m.log) == next && Blank(cfg, u, m2.pos, m.log) == Moved(next, n)
    requires (cfg.stopWhenDone && m.state == Finish) || next.Halt?
    ensures Resume(cfg, u, m2) == Moved(Resume(cfg, t, m), n)
  {
    ResumeEnds(cfg, t, m, next);
    ResumeEnds(cfg, u, m2, Moved(next, n));
  }

  lemma {:induction false} ResumeMoved(cfg: Config, u: bytes, n: nat, t: bytes, m: Machine, m2: Machine)
    requires Behind(u, n, t)
    requires m.pos <= |t| && m2 == m.(pos := n + m.pos)
    ensures Resume(cfg, u, m2) == Moved(Resume(cfg, t, m), n)
    decreases |t| - m.pos, 2
  {
    BlankMoved(cfg, u, n, t, m.pos, m.log);
    var next := Blank(cfg, t, m.pos, m.log);
    if next.Fine? && !(cfg.stopWhenDone && m.state == Finish) {
      ResumeAt(cfg, u, n, t, m, m2, next.pos);
    } else {
      ResumesEnd(cfg, u, n, t, m, m2, next);
    }
  }

  lemma {:induction false} ResumeAt(cfg: Config, u: bytes, n: nat, t: bytes, m: Machine, m2: Machine, q: nat)
    requires Behind(u, n, t)
    requires m.pos <= q <= |t| && m2 == m.(pos := n + m.pos) && !(cfg.stopWhenDone && m.state == Finish)
    requires Blank(cfg, t, m.pos, m.log) == Fine(q, m.log) && Blank(cfg, u, m2.pos, m.log) == Fine(n + q, m.log)
    ensures Resume(cfg, u, m2) == Moved(Resume(cfg, t, m), n)
    decreases |t| - m.pos, 1
  {
    RunMoved(cfg, u, n, t, m.(pos := q), m.(pos := n + q));
    ResumedMoved(cfg, u, n, t, m, m2, q);
  }

  lemma ResumedMoved(cfg: Config, u: bytes, n: nat, t: bytes, m: Machine, m2: Machine, q: nat)
    requires m.pos <= |t| && m2 == m.(pos := n + m.pos) && m2.pos <= |u| && q <= |t| && n + q <= |u|
    requires Blank(cfg, t, m.pos, m.log) == Fine(q, m.log) && Blank(cfg, u, m2.pos, m.log) == Fine(n + q, m.log)
    requires !(cfg.stopWhenDone && m.state == Finish)
    requires Run(cfg, u, m.(pos := n + q)) == Moved(Run(cfg, t, m.(pos := q)), n)
    ensures Resume(cfg, u, m2) == Moved(Resume(cfg, t, m), n)
  {
    ResumesRun(cfg, u, n, t, m, m2, q);
  }

  // ---------------------------------------------------------------- White space in front

  lemma {:induction false} InFront(w: bytes, t: bytes)
    ensures Behind(w + t, |w|, t)
    decreases |w|
  {
    if w == [] {
      assert w + t == t;
    } else {
      assert (w + t)[1..] == w[1..] + t;
      InFront(w[1..], t);
      assert Follows(w + t, |w|, t);
    }
  }

  lemma {:induction false} BlanksSkipped(cfg: Config, u: bytes, k: nat, n: nat)
    requires k <= n <= |u| && forall i | 0 <= i < n :: u[i] in {0x20, 0x0A, 0x0D, 0x09}
    ensures Blank(cfg, u, k, []) == Blank(cfg, u, n, [])
    decreases n - k
  {
    if k < n {
      assert u[k] in {0x20, 0x0A, 0x0D, 0x09};
      GrammarLeaves.BlankSkipped(cfg, u, k, []);
      BlanksSkipped(cfg, u, k + 1, n);
    }
  }

  /**
   Spaces, tabs and line ends in front of a text change nothing for the table-driven parser but the positions,
   whatever the handler answers.
   */
  lemma SpaceInFrontIterative(cfg: Config, w: bytes, t: bytes)
    requires forall i | 0 <= i < |w| :: w[i] in {0x20, 0x0A, 0x0D, 0x09}
    ensures Parse(cfg, w + t) == Moved(Parse(cfg, t), |w|)
  {
    InFront(w, t);
    BlanksInFront(cfg, w, t);
    BlankMoved(cfg, w + t, |w|, t, 0, []);
    ParseMoved(cfg, w + t, |w|, t, Blank(cfg, t, 0, []));
  }

  lemma BlanksInFront(cfg: Config, w: bytes, t: bytes)
    requires forall i | 0 <= i < |w| :: w[i] in {0x20, 0x0A, 0x0D, 0x09}
    ensures Blank(cfg, w + t, 0, []) == Blank(cfg, w + t, |w|, [])
  {
    assert forall i | 0 <= i < |w| :: (w + t)[i] == w[i];
    BlanksSkipped(cfg, w + t, 0, |w|);
  }

  lemma ParseMoved(cfg: Config, u: bytes, n: nat, t: bytes, start: Outcome)
    requires Behind(u, n, t)
    requires start == Blank(cfg, t, 0, []) && Moved(start, n) == Blank(cfg, u, 0, [])
    ensures Parse(cfg, u) == Moved(Parse(cfg, t), n)
  {
    if start.Fine? {
      ParseAt(cfg, u, n, t, start.pos);
    }
  }

  lemma ParseAt(cfg: Config, u: bytes, n: nat, t: bytes, p: nat)
    requires Behind(u, n, t)
    requires p <= |t| && Blank(cfg, t, 0, []) == Fine(p, []) && Blank(cfg, u, 0, []) == Fine(n + p, [])
    ensures Parse(cfg, u) == Moved(Parse(cfg, t), n)
  {
    var m := Machine(Start, p, [], []);
    var m2 := Machine(Start, n + p, [], []);
    RunMoved(cfg, u, n, t, m, m2);
    var o := Run(cfg, t, m);
    assert Parse(cfg, t) == o by {
      ParseRuns(cfg, t, p);
    }
    assert Parse(cfg, u) == Moved(o, n) by {
      ParseRuns(cfg, u, n + p);
    }
  }

  lemma ParseRuns(cfg: Config, t: bytes, p: nat)
    requires p <= |t| && Blank(cfg, t, 0, []) == Fine(p, [])
    ensures Parse(cfg, t) == Run(cfg, t, Machine(Start, p, [], []))
  {
  }

  /** Nor do they change the events, the verdict, the error code or, after success, the text that was consumed. */
  lemma SpaceInFront(cfg: Config, w: bytes, t: bytes)
    requires forall i | 0 <= i < |w| :: w[i] in {0x20, 0x0A, 0x0D, 0x09}
    ensures
      var o, moved := Descent.Parse(cfg, t), Descent.Parse(cfg, w + t);
      && moved.log == o.log && (moved.Fine? <==> o.Fine?)
      && (o.Fine? ==> moved.pos == |w| + o.pos) && (o.Halt? ==> moved.code == o.code)
  {
    SpaceInFrontIterative(cfg, w, t);
    FirstCharacterMoved(cfg, w, t);
    ParserEquivalence.ParsersAgree(cfg, t);
    ParserEquivalence.ParsersAgree(cfg, w + t);
  }

  lemma FirstCharacterMoved(cfg: Config, w: bytes, t: bytes)
    requires forall i | 0 <= i < |w| :: w[i] in {0x20, 0x0A, 0x0D, 0x09}
    ensures Blank(cfg, w + t, 0, []) == Moved(Blank(cfg, t, 0, []), |w|)
    ensures ParserEquivalence.FirstCharacter(cfg, w + t) == ParserEquivalence.FirstCharacter(cfg, t)
  {
    InFront(w, t);
    BlanksInFront(cfg, w, t);
    BlankMoved(cfg, w + t, |w|, t, 0, []);
    var start := Blank(cfg, t, 0, []);
    if start.Fine? {
      PeekMoved(w + t, |w|, t, start.pos);
    }
  }
}
