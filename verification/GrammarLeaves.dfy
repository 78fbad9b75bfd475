/** The parser's leaves against the grammar: gaps, strings, numbers and the three words. */
module GrammarLeaves {
  import opened Bytes
  import opened Sax
  import opened Strings
  import opened Numbers
  import opened Grammar
  import Descent
  import Utf8

  // ---------------------------------------------------------------- Gaps

  /** The character begins white space or a comment. */
  ghost predicate GapStarts(cfg: Config, c: byte) {
    IsBlank(c) || (cfg.comments && c == 0x2F)
  }

  lemma SpaceIsBlank(c: byte)
    ensures IsSpace(c) <==> IsBlank(c)
  {
  }

  lemma {:induction false} BlockEndIs(t: bytes, p: nat, s: nat, r: nat)
    requires p + 2 <= s <= r - 2 && r <= |t| && BlockComment(t, p, r)
    ensures BlockEnd(t, s) == Some(r)
    decreases r - s
  {
    if s < r - 2 {
      BlockEndIs(t, p, s + 1, r);
    }
  }

  lemma {:induction false} BlockEndFound(t: bytes, p: nat, s: nat)
    requires p + 2 <= s <= |t| && t[p] == 0x2F && t[p + 1] == 0x2A && BlockEnd(t, s).Some?
    requires forall i | p + 2 <= i < s :: t[i] != 0 && !(t[i] == 0x2A && Peek(t, i + 1) == 0x2F)
    ensures p + 4 <= BlockEnd(t, s).value && BlockComment(t, p, BlockEnd(t, s).value)
    decreases |t| - s
  {
    if Peek(t, s) != 0x2A || Peek(t, s + 1) != 0x2F {
      BlockEndFound(t, p, s + 1);
    }
  }

  lemma {:induction false} LineEndIs(t: bytes, p: nat, s: nat, r: nat)
    requires p + 2 <= s <= r <= |t| && LineComment(t, p, r) && (s == r ==> Peek(t, r) == 0)
    ensures LineEnd(t, s) == r
    decreases r - s
  {
    if s < r && t[s] != 0x0A {
      LineEndIs(t, p, s + 1, r);
    }
  }

  lemma {:induction false} LineEndFound(t: bytes, p: nat, s: nat)
    requires p + 2 <= s <= |t| && t[p] == 0x2F && t[p + 1] == 0x2F
    requires forall i | p + 2 <= i < s :: t[i] != 0 && t[i] != 0x0A
    ensures LineComment(t, p, LineEnd(t, s))
    decreases |t| - s
  {
    if Peek(t, s) != 0 && t[s] != 0x0A {
      LineEndFound(t, p, s + 1);
    }
  }

  /** One blank is skipped like any other. */
  lemma BlankSkipped(cfg: Config, t: bytes, p: nat, log: seq<Event>)
    requires p < |t| && IsBlank(t[p])
    ensures Blank(cfg, t, p, log) == Blank(cfg, t, p + 1, log)
  {
    assert SkipSpace(t, p) == SkipSpace(t, p + 1);
  }

  lemma CommentSkipped(cfg: Config, t: bytes, p: nat, r: nat, log: seq<Event>)
    requires cfg.comments && p < r <= |t| && Comment(t, p, r)
    ensures Blank(cfg, t, p, log) == Blank(cfg, t, r, log)
  {
    assert SkipSpace(t, p) == p;
    if p + 4 <= r && BlockComment(t, p, r) {
      BlockEndIs(t, p, p + 2, r);
    } else {
      LineEndIs(t, p, p + 2, r);
    }
  }

  /** A gap is skipped up to a character that begins no further one. */
  lemma {:induction false} GapSkipped(cfg: Config, t: bytes, p: nat, q: nat, log: seq<Event>)
    requires p <= q <= |t| && GapAt(cfg, t, p, q) && !GapStarts(cfg, Peek(t, q))
    ensures Blank(cfg, t, p, log) == Fine(q, log)
    decreases q - p
  {
    if p < q {
      assert GapBegins(cfg, t, p, q);
      if IsBlank(t[p]) && GapAt(cfg, t, p + 1, q) {
        BlankSkipped(cfg, t, p, log);
        GapSkipped(cfg, t, p + 1, q, log);
      } else {
        var r :| p < r <= q && Comment(t, p, r) && GapAt(cfg, t, r, q);
        CommentSkipped(cfg, t, p, r, log);
        GapSkipped(cfg, t, r, q, log);
      }
    }
  }

  /** What is skipped is a gap, and no further one begins after it. */
  lemma {:induction false} SkippedIsGap(cfg: Config, t: bytes, p: nat, log: seq<Event>)
    requires p <= |t| && Blank(cfg, t, p, log).Fine?
    ensures
      var q := Blank(cfg, t, p, log).pos;
      GapAt(cfg, t, p, q) && !GapStarts(cfg, Peek(t, q))
    decreases |t| - p
  {
    if p < |t| && IsBlank(t[p]) {
      BlankSkipped(cfg, t, p, log);
      SkippedIsGap(cfg, t, p + 1, log);
    } else if cfg.comments && Peek(t, p) == 0x2F {
      var r := CommentFound(cfg, t, p, log);
      SkippedIsGap(cfg, t, r, log);
    }
  }

  lemma CommentFound(cfg: Config, t: bytes, p: nat, log: seq<Event>) returns (r: nat)
    requires p < |t| && cfg.comments && t[p] == 0x2F && Blank(cfg, t, p, log).Fine?
    ensures p < r <= |t| && Comment(t, p, r) && Blank(cfg, t, p, log) == Blank(cfg, t, r, log)
  {
    assert SkipSpace(t, p) == p;
    if Peek(t, p + 1) == 0x2A {
      r := BlockEnd(t, p + 2).value;
      BlockEndFound(t, p, p + 2);
    } else {
      r := LineEnd(t, p + 2);
      LineEndFound(t, p, p + 2);
    }
  }

  // ---------------------------------------------------------------- Strings

  /** A hexadecimal digit has the value it spells, in either case. */
  lemma HexSpelled(c: byte)
    ensures IsHex(c) ==> Spells(c, HexValue(c))
    ensures forall d: nat | Spells(c, d) :: IsHex(c) && HexValue(c) == d
  {
  }

  /** For every number and every spelling of its four digits, in lower or upper case, the reader finds the number. */
  lemma HexRead(t: bytes, p: nat, h: Hex)
    requires HexAt(t, p, h)
    ensures Hex4(t, p) == Some(h.number)
  {
    HexSpelled(t[p]);
    HexSpelled(t[p + 1]);
    HexSpelled(t[p + 2]);
    HexSpelled(t[p + 3]);
  }

  lemma HexFound(t: bytes, p: nat) returns (h: Hex)
    requires Hex4(t, p).Some?
    ensures HexAt(t, p, h) && h.number == Hex4(t, p).value
  {
    h := Hex(HexValue(t[p]), HexValue(t[p + 1]), HexValue(t[p + 2]), HexValue(t[p + 3]), Hex4(t, p).value);
    HexSpelled(t[p]);
    HexSpelled(t[p + 1]);
    HexSpelled(t[p + 2]);
    HexSpelled(t[p + 3]);
  }

  /** The reader's table of short escapes is the list of the grammar. */
  lemma ShortSpelled(e: byte, b: byte)
    ensures SimpleEscape(e) == Some(b) <==> (e, b) in SHORT
  {
  }

  lemma UnitPiece(t: bytes, p: nat, u: nat)
    requires Peek(t, p) == 0x5C && Peek(t, p + 1) == 0x75 && Hex4(t, p + 2) == Some(u)
    ensures !(0xD800 <= u <= 0xDBFF) ==> PieceAt(t, p) == Put(Utf8.Encode(u), p + 6)
    ensures 0xD800 <= u <= 0xDBFF ==> PieceAt(t, p) == SurrogateAt(t, p, u)
  {
  }

  lemma HalvesRead(t: bytes, p: nat, high: nat, low: nat)
    requires 0xD800 <= high <= 0xDBFF && 0xDC00 <= low <= 0xDFFF
    requires Peek(t, p) == 0x5C && Peek(t, p + 1) == 0x75 && Hex4(t, p + 2) == Some(high)
    requires Peek(t, p + 6) == 0x5C && Peek(t, p + 7) == 0x75 && Hex4(t, p + 8) == Some(low)
    ensures PieceAt(t, p) == Put(CodePoint(0x10000 + (high - 0xD800) * 0x400 + (low - 0xDC00)), p + 12)
  {
    UnitPiece(t, p, high);
    LowRead(t, p, high, low);
  }

  /** A part of a string is decoded in one turn to the bytes it stands for. */
  lemma CharDecoded(t: bytes, p: nat, c: Char)
    requires CharAt(t, p, c)
    ensures PieceAt(t, p) == Put(CharBytes(c), p + Width(c))
  {
    match c
    case Raw(_) =>
    case Short(letter, stands) => ShortSpelled(letter, stands);
    case Unit(u) =>
      HexRead(t, p + 2, u);
      UnitPiece(t, p, u.number);
    case Pair(high, low) =>
      HexRead(t, p + 2, high);
      HexRead(t, p + 8, low);
      HalvesRead(t, p, high.number, low.number);
  }

  lemma CharOfPiece(t: bytes, p: nat) returns (c: Char)
    requires p <= |t| && PieceAt(t, p).Put?
    ensures CharAt(t, p, c)
  {
    if t[p] != 0x5C {
      c := Raw(t[p]);
    } else if t[p + 1] != 0x75 {
      c := Short(t[p + 1], SimpleEscape(t[p + 1]).value);
      ShortSpelled(t[p + 1], SimpleEscape(t[p + 1]).value);
    } else {
      c := CharOfUnicode(t, p);
    }
  }

  lemma CharOfUnicode(t: bytes, p: nat) returns (c: Char)
    requires p + 1 < |t| && t[p] == 0x5C && t[p + 1] == 0x75 && PieceAt(t, p).Put?
    ensures CharAt(t, p, c)
  {
    var u := HexFound(t, p + 2);
    UnitPiece(t, p, u.number);
    if 0xD800 <= u.number <= 0xDBFF {
      var low := HexFound(t, p + 8);
      c := Pair(u, low);
    } else {
      c := Unit(u);
    }
  }

  lemma TurnDecoded(t: bytes, p: nat, c: Char, out: bytes)
    requires p <= |t| && PieceAt(t, p) == Put(CharBytes(c), p + Width(c))
    ensures p + Width(c) <= |t| && Unescape(t, p, out) == Unescape(t, p + Width(c), out + CharBytes(c))
  {
  }

  /** A string of the grammar is decoded to what it stands for, up to and with its closing mark at `end`. */
  lemma {:induction false} CharsDecoded(t: bytes, p: nat, chars: seq<Char>, out: bytes, str: bytes, end: nat)
    requires CharsAt(t, p, chars) && str == out + Denoted(chars) && end == p + Length(chars)
    requires end < |t| && t[end] == 0x22
    ensures Unescape(t, p, out) == Text(str, end + 1)
    decreases |chars|
  {
    if chars == [] {
      MarkDecoded(t, p, out);
      assert out + Denoted(chars) == out;
    } else {
      var n, b := FirstDecoded(t, p, chars, out, str, end);
      CharsDecoded(t, p + n, chars[1..], out + b, str, end);
    }
  }

  lemma MarkDecoded(t: bytes, p: nat, out: bytes)
    requires p < |t| && t[p] == 0x22
    ensures Unescape(t, p, out) == Text(out, p + 1)
  {
  }

  /** The first part of a string, `n` bytes that stand for `b`, is decoded. */
  lemma FirstDecoded(t: bytes, p: nat, chars: seq<Char>, out: bytes, str: bytes, end: nat) returns (n: nat, b: bytes)
    requires chars != [] && CharsAt(t, p, chars) && str == out + Denoted(chars) && end == p + Length(chars)
    ensures p + n <= |t| && Unescape(t, p, out) == Unescape(t, p + n, out + b)
    ensures CharsAt(t, p + n, chars[1..]) && str == (out + b) + Denoted(chars[1..])
    ensures end == (p + n) + Length(chars[1..])
  {
    n, b := FirstOf(t, p, chars, out);
    FirstAlone(chars, out, str, n, b);
  }

  lemma FirstAlone(chars: seq<Char>, out: bytes, str: bytes, n: nat, b: bytes)
    requires chars != [] && n == Width(chars[0]) && b == CharBytes(chars[0]) && str == out + Denoted(chars)
    ensures str == (out + b) + Denoted(chars[1..]) && Length(chars) == n + Length(chars[1..])
  {
  }

  lemma FirstOf(t: bytes, p: nat, chars: seq<Char>, out: bytes) returns (n: nat, b: bytes)
    requires chars != [] && CharsAt(t, p, chars)
    ensures n == Width(chars[0]) && b == CharBytes(chars[0]) && CharsAt(t, p + n, chars[1..])
    ensures p + n <= |t| && Unescape(t, p, out) == Unescape(t, p + n, out + b)
  {
    assert CharsBegin(t, p, chars);
    n, b := Width(chars[0]), CharBytes(chars[0]);
    FirstTurn(t, p, chars[0], out);
  }

  lemma FirstTurn(t: bytes, p: nat, c: Char, out: bytes)
    requires CharAt(t, p, c)
    ensures p + Width(c) <= |t| && Unescape(t, p, out) == Unescape(t, p + Width(c), out + CharBytes(c))
  {
    CharDecoded(t, p, c);
    TurnDecoded(t, p, c, out);
  }

  /** What is decoded is a string of the grammar. */
  lemma {:induction false} DecodedChars(t: bytes, p: nat, out: bytes) returns (chars: seq<Char>)
    requires p <= |t| && Unescape(t, p, out).Text?
    ensures CharsAt(t, p, chars) && p + Length(chars) < |t| && t[p + Length(chars)] == 0x22
    ensures Unescape(t, p, out).next == p + Length(chars) + 1
    decreases |t| - p
  {
    var c, q, out' := FirstFound(t, p, out);
    if c.None? {
      chars := [];
    } else {
      var rest := DecodedChars(t, q, out');
      chars := [c.value] + rest;
      FirstAnd(t, p, c.value, rest, chars);
    }
  }

  lemma FirstFound(t: bytes, p: nat, out: bytes) returns (c: Option<Char>, q: nat, out': bytes)
    requires p <= |t| && Unescape(t, p, out).Text?
    ensures c.None? ==> p < |t| && t[p] == 0x22 && Unescape(t, p, out).next == p + 1
    ensures c.Some? ==> CharAt(t, p, c.value) && q == p + Width(c.value) <= |t|
    ensures c.Some? ==> Unescape(t, p, out) == Unescape(t, q, out')
  {
    if PieceAt(t, p).Close? {
      c, q, out' := None, p, out;
    } else {
      var x := CharOfPiece(t, p);
      c, q, out' := Some(x), p + Width(x), out + CharBytes(x);
      FirstTurn(t, p, x, out);
    }
  }

  lemma FirstAnd(t: bytes, p: nat, c: Char, rest: seq<Char>, chars: seq<Char>)
    requires chars == [c] + rest && CharAt(t, p, c) && CharsAt(t, p + Width(c), rest)
    ensures CharsAt(t, p, chars) && Length(chars) == Width(c) + Length(rest)
  {
    assert chars[1..] == rest && CharsBegin(t, p, chars);
  }

  /** The string literal is decoded to these bytes and ends there. */
  ghost predicate LiteralDecoded(t: bytes, p: nat, str: bytes, next: nat)
    requires p < |t|
  {
    Unescape(t, p + 1, []) == Text(str, next)
  }

  lemma StringRead(t: bytes, p: nat, chars: seq<Char>)
    requires StringAt(t, p, chars)
    ensures LiteralDecoded(t, p, Denoted(chars), p + Length(chars) + 2)
  {
    BodyRead(t, p, chars, Denoted(chars), Length(chars));
  }

  lemma BodyRead(t: bytes, p: nat, chars: seq<Char>, str: bytes, n: nat)
    requires CharsAt(t, p + 1, chars) && n == Length(chars) && p + n + 2 <= |t| && t[p + n + 1] == 0x22
    requires str == Denoted(chars)
    ensures LiteralDecoded(t, p, str, p + n + 2)
  {
    BodyDecoded(t, p, chars, str, n);
    LiteralIs(t, p, str, p + n + 2);
  }

  lemma BodyDecoded(t: bytes, p: nat, chars: seq<Char>, str: bytes, n: nat)
    requires CharsAt(t, p + 1, chars) && n == Length(chars) && p + n + 2 <= |t| && t[p + n + 1] == 0x22
    requires str == Denoted(chars)
    ensures Unescape(t, p + 1, []) == Text([] + str, p + n + 2)
  {
    CharsDecoded(t, p + 1, chars, [], [] + str, p + n + 1);
  }

  lemma LiteralIs(t: bytes, p: nat, str: bytes, next: nat)
    requires p < |t| && Unescape(t, p + 1, []) == Text([] + str, next)
    ensures LiteralDecoded(t, p, str, next)
  {
    assert [] + str == str;
  }

  lemma QuoteIs(cfg: Config, t: bytes, p: nat, isKey: bool, str: bytes, next: nat, log: seq<Event>)
    requires p < |t| && LiteralDecoded(t, p, str, next)
    ensures Descent.Quote(cfg, t, p, isKey, log) == Emit(cfg, log, if isKey then Key(str) else String(str), next, next)
  {
  }

  lemma StringFound(cfg: Config, t: bytes, p: nat, isKey: bool, log: seq<Event>) returns (chars: seq<Char>)
    requires p < |t| && t[p] == 0x22 && Descent.Quote(cfg, t, p, isKey, log).Fine?
    ensures StringAt(t, p, chars)
    ensures LiteralDecoded(t, p, Denoted(chars), p + Length(chars) + 2)
  {
    chars := DecodedChars(t, p + 1, []);
    StringRead(t, p, chars);
  }

  // ---------------------------------------------------------------- Numbers

  lemma DigitsEndAt(t: bytes, p: nat, q: nat)
    requires p < |t| && DigitsAt(t, p, q)
    ensures DigitsEnd(t, p) == q
  {
    DigitsEndIs(t, p, q);
  }

  lemma EndIsDigitsAt(t: bytes, p: nat)
    requires p < |t| && IsDigit(t[p])
    ensures DigitsAt(t, p, DigitsEnd(t, p))
  {
  }

  /** The scanner finds exactly the numbers of the grammar. */
  lemma NumberScanned(t: bytes, p: nat, l: Literal)
    requires p < |t| && NumberAt(t, p, l)
    ensures ScanNumber(t, p) == Found(l)
  {
    IntegerScanned(t, l.intStart, l.intEnd);
    if Peek(t, l.intEnd) == 0x2E {
      DigitsEndAt(t, l.intEnd + 1, l.fracEnd);
    }
    var mantissa := Literal(l.minus, l.intStart, l.intEnd, l.fracEnd, l.fracEnd, false, l.fracEnd);
    ExponentScanned(t, mantissa, l);
    MantissaScanned(t, p, l, mantissa);
  }

  lemma MantissaScanned(t: bytes, p: nat, l: Literal, mantissa: Literal)
    requires p <= |t| && mantissa == Literal(l.minus, l.intStart, l.intEnd, l.fracEnd, l.fracEnd, false, l.fracEnd)
    requires (l.minus <==> Peek(t, p) == 0x2D) && l.intStart == (if l.minus then p + 1 else p)
    requires ValidLiteral(t, mantissa) && IsDigit(t[l.intStart]) && l.intEnd == IntegerEnd(t, l.intStart)
    requires
      if Peek(t, l.intEnd) == 0x2E then
        l.intEnd + 1 < |t| && IsDigit(t[l.intEnd + 1]) && l.fracEnd == DigitsEnd(t, l.intEnd + 1)
      else l.fracEnd == l.intEnd
    ensures ScanNumber(t, p) == ScanExponent(t, mantissa)
  {
    if Peek(t, l.intEnd) == 0x2E {
      var m := WithFraction(t, p, l.minus, l.intStart, l.intEnd);
    } else {
      var m := NoFraction(t, p, l.minus, l.intStart, l.intEnd);
    }
  }

  lemma IntegerScanned(t: bytes, a: nat, b: nat)
    requires if Peek(t, a) == 0x30 then b == a + 1 else DigitsAt(t, a, b)
    ensures a < |t| && IsDigit(t[a]) && b == if t[a] == ZERO then a + 1 else DigitsEnd(t, a)
  {
    if Peek(t, a) != 0x30 {
      DigitsEndAt(t, a, b);
    }
  }

  lemma ExponentScanned(t: bytes, mantissa: Literal, l: Literal)
    requires ValidLiteral(t, mantissa) && mantissa.fracEnd == mantissa.exponentStart == mantissa.end == l.fracEnd
    requires mantissa == Literal(l.minus, l.intStart, l.intEnd, l.fracEnd, l.fracEnd, false, l.fracEnd)
    requires
      if Peek(t, l.fracEnd) == 0x65 || Peek(t, l.fracEnd) == 0x45 then
        var sign := Peek(t, l.fracEnd + 1);
        && l.exponentStart == (if sign == 0x2B || sign == 0x2D then l.fracEnd + 2 else l.fracEnd + 1)
        && (l.exponentMinus <==> sign == 0x2D)
        && DigitsAt(t, l.exponentStart, l.end)
      else l.exponentStart == l.end == l.fracEnd && !l.exponentMinus
    ensures ScanExponent(t, mantissa) == Found(l)
  {
    if Peek(t, l.fracEnd) == 0x65 || Peek(t, l.fracEnd) == 0x45 {
      DigitsEndAt(t, l.exponentStart, l.end);
    }
  }

  lemma ScannedInteger(t: bytes, p: nat, l: Literal)
    requires p <= |t| && ScanNumber(t, p) == Found(l)
    ensures (l.minus <==> Peek(t, p) == 0x2D) && l.intStart == (if l.minus then p + 1 else p)
    ensures if Peek(t, l.intStart) == 0x30 then l.intEnd == l.intStart + 1 else DigitsAt(t, l.intStart, l.intEnd)
  {
    var a := if Peek(t, p) == MINUS then p + 1 else p;
    if t[a] != ZERO {
      EndIsDigitsAt(t, a);
    }
  }

  lemma ScannedFraction(t: bytes, p: nat, l: Literal)
    requires p <= |t| && ScanNumber(t, p) == Found(l)
    ensures if Peek(t, l.intEnd) == 0x2E then DigitsAt(t, l.intEnd + 1, l.fracEnd) else l.fracEnd == l.intEnd
    ensures ScanExponent(t, Literal(l.minus, l.intStart, l.intEnd, l.fracEnd, l.fracEnd, false, l.fracEnd)) == Found(l)
  {
    if Peek(t, l.intEnd) == DOT {
      EndIsDigitsAt(t, l.intEnd + 1);
    }
  }

  lemma ScannedExponent(t: bytes, mantissa: Literal, l: Literal)
    requires ValidLiteral(t, mantissa) && mantissa.fracEnd == mantissa.exponentStart == mantissa.end
    requires !mantissa.exponentMinus && ScanExponent(t, mantissa) == Found(l)
    ensures
      if Peek(t, l.fracEnd) == 0x65 || Peek(t, l.fracEnd) == 0x45 then
        var sign := Peek(t, l.fracEnd + 1);
        && l.exponentStart == (if sign == 0x2B || sign == 0x2D then l.fracEnd + 2 else l.fracEnd + 1)
        && (l.exponentMinus <==> sign == 0x2D)
        && DigitsAt(t, l.exponentStart, l.end)
      else l.exponentStart == l.end == l.fracEnd && !l.exponentMinus
  {
    if Peek(t, l.fracEnd) == 0x65 || Peek(t, l.fracEnd) == 0x45 {
      EndIsDigitsAt(t, l.exponentStart);
    }
  }

  lemma ScannedNumber(t: bytes, p: nat, l: Literal)
    requires p <= |t| && ScanNumber(t, p) == Found(l)
    ensures p < |t| && NumberAt(t, p, l)
  {
    ScannedInteger(t, p, l);
    ScannedFraction(t, p, l);
    ScannedExponent(t, Literal(l.minus, l.intStart, l.intEnd, l.fracEnd, l.fracEnd, false, l.fracEnd), l);
  }

  /** Both readings of the digits give one number. */
  lemma {:induction false} BaseTenIs(t: bytes, p: nat, q: nat)
    requires p <= q <= |t| && forall i | p <= i < q :: IsDigit(t[i])
    ensures BaseTen(t, p, q) == DigitsValue(t, p, q)
    decreases q
  {
    if p < q {
      BaseTenIs(t, p, q - 1);
    }
  }

  /** Digits of which the first is no zero make at least as much as a one with as many zeros. */
  lemma {:induction false} LeadingDigit(t: bytes, p: nat, q: nat)
    requires p < q <= |t| && t[p] != 0x30 && forall i | p <= i < q :: IsDigit(t[i])
    ensures DigitsValue(t, p, q) >= Pow10(q - p - 1)
    decreases q
  {
    if q == p + 1 {
      assert DigitsValue(t, p, p) == 0;
    } else {
      LeadingDigit(t, p, q - 1);
    }
  }

  /** Once a digit other than zero is in, all digits count up to the seventeenth. */
  lemma {:induction false} FoldsToSeventeen(t: bytes, q: nat, e: nat, significand: nat, digits: nat)
    requires q <= e <= |t| && forall i | q <= i < e :: IsDigit(t[i])
    requires significand > 0 && Pow10(digits) <= 10 * significand
    ensures FoldCount(t, q, e, significand, digits)
         == if digits >= 17 then 0 else if e - q <= 17 - digits then e - q else 17 - digits
    decreases e - q
  {
    if q < e && significand <= MAX_EXACT_DOUBLE {
      PowerOfSeventeen();
      if digits >= 17 {
        Pow10Grows(17, digits);
        assert false;
      }
      FoldsToSeventeen(t, q + 1, e, significand * 10 + DigitOf(t[q]), digits + 1);
    }
  }

  /** After an integer part of zero, the zeros of the fraction count in addition. */
  lemma {:induction false} FoldsZeros(t: bytes, q: nat, e: nat)
    requires q <= e <= |t| && forall i | q <= i < e :: IsDigit(t[i])
    ensures FoldCount(t, q, e, 0, 0) == if e - q <= Zeros(t, q, e) + 17 then e - q else Zeros(t, q, e) + 17
    decreases e - q
  {
    if q < e {
      if t[q] == 0x30 {
        FoldsZeros(t, q + 1, e);
      } else {
        assert Pow10(1) == 10;
        FoldsToSeventeen(t, q + 1, e, DigitOf(t[q]), 1);
      }
    }
  }

  /** An integer part beyond 64 bits has more than eighteen digits. */
  lemma BeyondIsLong(t: bytes, l: Literal)
    requires ValidLiteral(t, l) && IntegerEvent(l.minus, IntegerValue(t, l)).None?
    ensures l.intEnd - l.intStart >= 18
  {
    ManyDigits(t, l.intStart, l.intEnd);
  }

  /** The digits that the reader folds into the significand are those that count. */
  lemma FoldedIsCounting(t: bytes, l: Literal)
    requires ValidLiteral(t, l) && (t[l.intStart] == 0x30 ==> l.intEnd == l.intStart + 1)
    ensures -FractionShift(t, l) == Counting(t, l)
  {
    var v := IntegerValue(t, l);
    if t[l.intStart] == 0x30 {
      assert DigitsValue(t, l.intStart, l.intStart) == 0;
      if l.fracEnd != l.intEnd {
        FoldsZeros(t, l.intEnd + 1, l.fracEnd);
      }
    } else if IntegerEvent(l.minus, v).None? {
      BeyondIsLong(t, l);
    } else if l.fracEnd != l.intEnd {
      LeadingDigit(t, l.intStart, l.intEnd);
      assert v > 0 by { Pow10Grows(0, l.intEnd - l.intStart - 1); }
      FoldsToSeventeen(t, l.intEnd + 1, l.fracEnd, v, l.intEnd - l.intStart - 1);
    }
  }

  /** How far the first digit of a literal other than zero stands above the unit, with the exponent added. */
  ghost function Magnitude(t: bytes, l: Literal, first: nat): int
    requires ValidLiteral(t, l) && !l.exponentMinus
  {
    BaseTen(t, l.exponentStart, l.end) + (if first < l.intEnd then l.intEnd - 1 - first else l.intEnd - first)
  }

  /**
   A literal that is refused unread because of its exponent is at least 10^309, unless it is zero: its first digit
   other than zero, at `first`, stands that high.
   */
  lemma RefusedUnreadIsHuge(t: bytes, l: Literal, first: nat)
    requires ValidLiteral(t, l) && (t[l.intStart] == 0x30 ==> l.intEnd == l.intStart + 1)
    requires !l.exponentMinus && BaseTen(t, l.exponentStart, l.end) > 308 + Counting(t, l)
    requires l.intStart <= first < l.fracEnd && first != l.intEnd && t[first] != 0x30
    requires forall i | l.intStart <= i < first && i != l.intEnd :: t[i] == 0x30
    ensures Magnitude(t, l, first) >= 309
  {
    if first > l.intEnd {
      assert t[l.intStart] == 0x30;
      assert Zeros(t, l.intEnd + 1, l.fracEnd) + l.intEnd + 1 >= first by {
        AllZeros(t, l.intEnd + 1, l.fracEnd, first);
      }
    }
  }

  lemma {:induction false} AllZeros(t: bytes, a: nat, b: nat, first: nat)
    requires a <= first <= b <= |t| && forall i | a <= i < first :: t[i] == 0x30
    ensures a + Zeros(t, a, b) >= first
    decreases b - a
  {
    if a < first {
      AllZeros(t, a + 1, b, first);
    }
  }

  /** A number of the grammar is delivered by its event, unless it is too big. */
  lemma NumberRead(cfg: Config, t: bytes, p: nat, l: Literal, log: seq<Event>)
    requires p < |t| && NumberAt(t, p, l) && ValidLiteral(t, l)
    ensures p <= l.end && Number(cfg, t, p, log) ==
      if TooBig(cfg, t, p, l) then Halt(log, NumberTooBig, p) else Emit(cfg, log, NumberEvent(t, p, l), l.end, p)
  {
    NumberScanned(t, p, l);
    BaseTenIs(t, l.intStart, l.intEnd);
    BaseTenIs(t, l.exponentStart, l.end);
    FoldedIsCounting(t, l);
  }
}
