/** When a decoded string is well-formed: exactly when its literal has no lone low surrogate escape. */
module DecodedStrings {
  import opened Bytes
  import opened Sax
  import opened Utf8
  import opened Strings
  import Descent

  /** The escape of the second half of a surrogate pair stands at `p`. */
  predicate LowEscapeAt(t: bytes, p: nat) {
    && Peek(t, p) == BACKSLASH && Peek(t, p + 1) == LETTER_U
    && Hex4(t, p + 2).Some? && 0xDC00 <= Hex4(t, p + 2).value <= 0xDFFF
  }

  /** Reading on from `p`, such an escape is met by itself; within a pair it is read with its first half. */
  predicate MeetsLoneLow(t: bytes, p: nat)
    requires p <= |t|
    decreases |t| - p
  {
    PieceAt(t, p).Put? && (LowEscapeAt(t, p) || MeetsLoneLow(t, PieceAt(t, p).next))
  }

  /** The raw text from `p` to `e` consists of whole characters. */
  predicate CharactersTo(t: bytes, p: nat, e: nat)
    requires p <= e
    decreases e - p
  {
    var n := CharLength(t, p);
    p == e || (n != 0 && p + n <= e && CharactersTo(t, p + n, e))
  }

  // ---------------------------------------------------------------- Decoding by parts

  function Prefixed(out: bytes, d: Decoded): Decoded {
    if d.Text? then Text(out + d.str, d.next) else d
  }

  /** What was decoded before only stands before what is decoded now. */
  lemma {:induction false} UnescapeFrom(t: bytes, p: nat, out: bytes)
    requires p <= |t|
    ensures Unescape(t, p, out) == Prefixed(out, Unescape(t, p, []))
    decreases |t| - p
  {
    var piece := PieceAt(t, p);
    if piece.Put? {
      UnescapeFrom(t, piece.next, out + piece.units);
      UnescapeFrom(t, piece.next, [] + piece.units);
      PrefixedTwice(out, piece.units, Unescape(t, piece.next, []));
    } else {
      assert out + [] == out;
    }
  }

  lemma PrefixedTwice(a: bytes, b: bytes, d: Decoded)
    ensures Prefixed(a + b, d) == Prefixed(a, Prefixed([] + b, d))
  {
    assert [] + b == b;
    if d.Text? {
      assert (a + b) + d.str == a + (b + d.str);
    }
  }

  /** One piece and what follows it. */
  lemma PieceFirst(t: bytes, p: nat, d: bytes, n: nat) returns (rest: bytes)
    requires p <= |t| && Unescape(t, p, []) == Text(d, n) && PieceAt(t, p).Put?
    ensures d == PieceAt(t, p).units + rest && Unescape(t, PieceAt(t, p).next, []) == Text(rest, n)
  {
    var piece := PieceAt(t, p);
    UnescapeFrom(t, piece.next, [] + piece.units);
    assert [] + piece.units == piece.units;
    rest := Unescape(t, piece.next, []).str;
  }

  /** Decoding ends at a quote. */
  lemma {:induction false} EndsAtQuote(t: bytes, p: nat, d: bytes, n: nat)
    requires p <= |t| && Unescape(t, p, []) == Text(d, n)
    ensures p < n <= |t| && t[n - 1] == QUOTE
    ensures PieceAt(t, p).Close? <==> n == p + 1
    ensures p + 1 < n ==> PieceAt(t, p).Put? && PieceAt(t, p).next < n
    decreases |t| - p
  {
    if PieceAt(t, p).Put? {
      var rest := PieceFirst(t, p, d, n);
      EndsAtQuote(t, PieceAt(t, p).next, rest, n);
    }
  }

  // ---------------------------------------------------------------- Characters

  /** A string that begins with a whole character is well-formed exactly when the rest is. */
  lemma HeadCharacter(u: bytes, rest: bytes)
    requires u != [] && CharLength(u + rest, 0) == |u|
    ensures WellFormed(u + rest) <==> WellFormed(rest)
  {
    assert (u + rest)[|u|..] == rest;
  }

  lemma EncodedHead(cp: nat, rest: bytes)
    requires IsScalar(cp)
    ensures WellFormed(Encode(cp) + rest) <==> WellFormed(rest)
  {
    AtMiddle([], Encode(cp), rest);
    assert [] + Encode(cp) + rest == Encode(cp) + rest;
    DecodeEncode(Encode(cp) + rest, 0, cp);
    HeadCharacter(Encode(cp), rest);
  }

  /** Nothing well-formed begins with an encoded surrogate. */
  lemma SurrogateHead(cp: nat, rest: bytes)
    requires 0xDC00 <= cp <= 0xDFFF
    ensures !WellFormed(Encode(cp) + rest)
  {
    var s := Encode(cp) + rest;
    assert s[0] == 0xED;
    assert s[1] >= 0xA0 by {
      assert cp / 0x40 % 0x40 >= 0x30;
    }
    assert CharLength(s, 0) == 0;
  }

  lemma RawHead(t: bytes, p: nat, n: nat, rest: bytes)
    requires p < |t| && n == CharLength(t, p) != 0
    ensures p + n <= |t| && (WellFormed(t[p..p + n] + rest) <==> WellFormed(rest))
  {
    var u := t[p..p + n];
    assert forall k: nat | k < n :: Peek(u + rest, k) == Peek(t, p + k);
    HeadCharacter(u, rest);
  }

  // ---------------------------------------------------------------- One piece

  /** An escape stands for a whole character, but for the escape of a second half. */
  lemma EscapePiece(t: bytes, p: nat, rest: bytes)
    requires p < |t| && t[p] == BACKSLASH && PieceAt(t, p).Put?
    ensures WellFormed(PieceAt(t, p).units + rest) <==> !LowEscapeAt(t, p) && WellFormed(rest)
  {
    var e := Peek(t, p + 1);
    if SimpleEscape(e).Some? {
      SimpleHead(SimpleEscape(e).value, rest);
    } else {
      UnicodePiece(t, p, Hex4(t, p + 2).value, rest);
    }
  }

  lemma SimpleHead(c: byte, rest: bytes)
    requires c < 0x80
    ensures WellFormed([c] + rest) <==> WellFormed(rest)
  {
    HeadCharacter([c], rest);
  }

  lemma UnicodePiece(t: bytes, p: nat, cp: nat, rest: bytes)
    requires p < |t| && t[p] == BACKSLASH && Peek(t, p + 1) == LETTER_U && Hex4(t, p + 2) == Some(cp)
    requires PieceAt(t, p).Put?
    ensures WellFormed(PieceAt(t, p).units + rest) <==> !LowEscapeAt(t, p) && WellFormed(rest)
  {
    var whole := UnicodeUnits(t, p, cp);
    if 0xDC00 <= cp <= 0xDFFF {
      SurrogateHead(cp, rest);
    } else {
      EncodedHead(whole, rest);
    }
  }

  /** The code point an escape or pair of escapes stands for. */
  lemma UnicodeUnits(t: bytes, p: nat, cp: nat) returns (whole: nat)
    requires p < |t| && t[p] == BACKSLASH && Peek(t, p + 1) == LETTER_U && Hex4(t, p + 2) == Some(cp)
    requires PieceAt(t, p).Put?
    ensures whole <= 0x10FFFF && PieceAt(t, p).units == Encode(whole)
    ensures if 0xDC00 <= cp <= 0xDFFF then whole == cp else IsScalar(whole)
    ensures PieceAt(t, p).next == if 0xD800 <= cp <= 0xDBFF then p + 12 else p + 6
    ensures 0xD800 <= cp <= 0xDBFF ==>
      Peek(t, p + 6) == BACKSLASH && Peek(t, p + 7) == LETTER_U && Hex4(t, p + 8).Some?
  {
    whole := cp;
    if 0xD800 <= cp <= 0xDBFF {
      whole := (cp - 0xD800) * 0x400 + (Hex4(t, p + 8).value - 0xDC00) + 0x10000;
    }
  }

  ghost predicate Ascii(t: bytes, p: nat, q: nat) {
    q <= |t| && forall k | p <= k < q :: t[k] < 0x80
  }

  /** The characters of an escape are ASCII. */
  lemma EscapeIsAsciiText(t: bytes, p: nat)
    requires p < |t| && t[p] == BACKSLASH && PieceAt(t, p).Put?
    ensures Ascii(t, p, PieceAt(t, p).next)
  {
    if SimpleEscape(Peek(t, p + 1)).Some? {
      assert Ascii(t, p, p + 2);
    } else {
      var cp := Hex4(t, p + 2).value;
      var _ := UnicodeUnits(t, p, cp);
      HexIsAscii(t, p);
      if 0xD800 <= cp <= 0xDBFF {
        HexIsAscii(t, p + 6);
      }
    }
  }

  lemma HexIsAscii(t: bytes, p: nat)
    requires Peek(t, p) == BACKSLASH && Peek(t, p + 1) == LETTER_U && Hex4(t, p + 2).Some?
    ensures Ascii(t, p, p + 6)
  {
    assert t[p + 2] < 0x80 && t[p + 3] < 0x80 && t[p + 4] < 0x80 && t[p + 5] < 0x80;
  }

  /** Each ASCII character is one character. */
  lemma {:induction false} AsciiSkipped(t: bytes, p: nat, q: nat, e: nat)
    requires p <= q <= e <= |t| && CharactersTo(t, p, e) && Ascii(t, p, q)
    ensures CharactersTo(t, q, e)
    decreases q - p
  {
    if p < q {
      assert CharLength(t, p) == 1;
      AsciiSkipped(t, p + 1, q, e);
    }
  }

  /** The bytes of a character of several are taken one by one, as they are. */
  lemma {:induction false} RawRun(t: bytes, p: nat, n: nat, d: bytes, end: nat) returns (rest: bytes)
    requires p + n <= |t| && Unescape(t, p, []) == Text(d, end) && forall k | p <= k < p + n :: t[k] >= 0x80
    ensures d == t[p..p + n] + rest && Unescape(t, p + n, []) == Text(rest, end)
    ensures MeetsLoneLow(t, p) <==> MeetsLoneLow(t, p + n)
    decreases n
  {
    if n == 0 {
      rest := d;
      assert d == t[p..p] + d;
    } else {
      assert PieceAt(t, p) == Strings.Put([t[p]], p + 1);
      var after := PieceFirst(t, p, d, end);
      rest := RawRun(t, p + 1, n - 1, after, end);
      FirstOfRun(t, p, n, rest);
    }
  }

  lemma FirstOfRun(t: bytes, p: nat, n: nat, rest: bytes)
    requires n > 0 && p + n <= |t|
    ensures [t[p]] + (t[p + 1..p + n] + rest) == t[p..p + n] + rest
  {
    assert t[p..p + n] == [t[p]] + t[p + 1..p + n];
  }

  lemma CharacterBytes(t: bytes, p: nat)
    requires p < |t| && t[p] >= 0x80 && CharLength(t, p) != 0
    ensures p + CharLength(t, p) <= |t| && forall k | p <= k < p + CharLength(t, p) :: t[k] >= 0x80
  {
    var n := CharLength(t, p);
    assert IsTail(Peek(t, p + 1)) && (n > 2 ==> IsTail(Peek(t, p + 2))) && (n > 3 ==> IsTail(Peek(t, p + 3)));
  }

  // ---------------------------------------------------------------- Whole strings

  lemma {:induction false} DecodedAgrees(t: bytes, p: nat, e: nat, d: bytes)
    requires p <= e < |t| && CharactersTo(t, p, e) && Unescape(t, p, []) == Text(d, e + 1)
    ensures WellFormed(d) <==> !MeetsLoneLow(t, p)
    decreases e - p
  {
    EndsAtQuote(t, p, d, e + 1);
    if p < e {
      if t[p] >= 0x80 {
        var rest := RawCharacter(t, p, d, e + 1);
        DecodedAgrees(t, p + CharLength(t, p), e, rest);
      } else {
        var rest := PieceFirst(t, p, d, e + 1);
        AsciiPiece(t, p, e, rest);
        DecodedAgrees(t, PieceAt(t, p).next, e, rest);
      }
    }
  }

  lemma RawCharacter(t: bytes, p: nat, d: bytes, end: nat) returns (rest: bytes)
    requires p < |t| && t[p] >= 0x80 && CharLength(t, p) != 0 && Unescape(t, p, []) == Text(d, end)
    ensures p + CharLength(t, p) <= |t| && Unescape(t, p + CharLength(t, p), []) == Text(rest, end)
    ensures WellFormed(d) <==> WellFormed(rest)
    ensures MeetsLoneLow(t, p) <==> MeetsLoneLow(t, p + CharLength(t, p))
  {
    CharacterBytes(t, p);
    rest := RawRun(t, p, CharLength(t, p), d, end);
    RawHead(t, p, CharLength(t, p), rest);
  }

  lemma AsciiPiece(t: bytes, p: nat, e: nat, rest: bytes)
    requires p < e < |t| && t[p] < 0x80 && PieceAt(t, p).Put? && PieceAt(t, p).next <= e && CharactersTo(t, p, e)
    ensures CharactersTo(t, PieceAt(t, p).next, e)
    ensures WellFormed(PieceAt(t, p).units + rest) <==> !LowEscapeAt(t, p) && WellFormed(rest)
  {
    if t[p] == BACKSLASH {
      EscapeIsAsciiText(t, p);
      EscapePiece(t, p, rest);
    } else {
      SimpleHead(t[p], rest);
    }
    AsciiSkipped(t, p, PieceAt(t, p).next, e);
  }

  /** Before an ASCII character, well-formed text is text of whole characters. */
  lemma {:induction false} WellFormedTo(t: bytes, p: nat, e: nat)
    requires p <= e < |t| && t[e] < 0x80
    ensures CharactersTo(t, p, e) <==> WellFormed(t[p..e])
    decreases e - p
  {
    if p < e {
      CharLengthCut(t, p, e);
      var n := CharLength(t, p);
      if n != 0 {
        assert t[p..e][n..] == t[p + n..e];
        WellFormedTo(t, p + n, e);
      }
    }
  }

  lemma CharLengthCut(t: bytes, p: nat, e: nat)
    requires p < e < |t| && t[e] < 0x80
    ensures CharLength(t[p..e], 0) == CharLength(t, p) && p + CharLength(t, p) <= e
  {
    var u := t[p..e];
    assert forall k: nat | k < e - p :: Peek(u, k) == Peek(t, p + k);
    assert Peek(u, e - p) == 0 && !IsTail(Peek(t, e));
  }

  /**
   A literal of well-formed text decodes to a well-formed string exactly when no escape in it is the second half
   of a surrogate pair that has no first half.
   */
  lemma WellFormedExactly(t: bytes, p: nat, s: bytes, n: nat)
    requires p <= |t| && Unescape(t, p, []) == Text(s, n)
    requires p < n <= |t| && WellFormed(t[p..n - 1])
    ensures WellFormed(s) <==> !MeetsLoneLow(t, p)
  {
    EndsAtQuote(t, p, s, n);
    WellFormedTo(t, p, n - 1);
    DecodedAgrees(t, p, n - 1, s);
  }

  /** `"\uDC00"` */
  const LONE_LOW: bytes := [0x22, 0x5C, 0x75, 0x44, 0x43, 0x30, 0x30, 0x22]

  const LOW_UNITS: bytes := [0xED, 0xB0, 0x80]

  /** The reader accepts the literal of a lone second half, and delivers bytes that are not UTF-8. */
  lemma LoneLowIsAccepted(cfg: Config)
    requires cfg.accepts([String(LOW_UNITS)])
    ensures Unescape(LONE_LOW, 1, []) == Text(LOW_UNITS, 8)
    ensures Descent.Quote(cfg, LONE_LOW, 0, false, []) == Fine(8, [String(LOW_UNITS)])
    ensures WellFormed(LONE_LOW[1..7]) && MeetsLoneLow(LONE_LOW, 1) && !WellFormed(LOW_UNITS)
  {
    LoneLowPiece(LONE_LOW);
    OnePiece(LONE_LOW, 1, LOW_UNITS, 7);
    RawIsWellFormed(LONE_LOW);
    SurrogateHead(0xDC00, []);
    assert Encode(0xDC00) + [] == Encode(0xDC00);
    Accepted(cfg, LONE_LOW, LOW_UNITS);
  }

  lemma OnePiece(t: bytes, p: nat, units: bytes, q: nat)
    requires p < q < |t| && PieceAt(t, p) == Strings.Put(units, q) && PieceAt(t, q) == Close(q + 1)
    ensures Unescape(t, p, []) == Text(units, q + 1)
    ensures LowEscapeAt(t, p) ==> MeetsLoneLow(t, p)
  {
    UnescapeFrom(t, q, units);
    assert Unescape(t, q, []) == Text([], q + 1);
    assert units + [] == units && [] + units == units;
    assert Unescape(t, q, [] + units) == Text(units, q + 1);
  }

  lemma RawIsWellFormed(t: bytes)
    requires |t| == 8 && Ascii(t, 1, 8)
    ensures WellFormed(t[1..7])
  {
    AllAscii(t, 1, 7);
    WellFormedTo(t, 1, 7);
  }

  lemma Accepted(cfg: Config, t: bytes, s: bytes)
    requires |t| == 8 && Unescape(t, 1, []) == Text(s, 8) && cfg.accepts([String(s)])
    ensures Descent.Quote(cfg, t, 0, false, []) == Fine(8, [String(s)])
  {
    assert [] + [String(s)] == [String(s)];
  }

  lemma LoneLowPiece(t: bytes)
    requires t == LONE_LOW
    ensures PieceAt(t, 1) == Strings.Put(LOW_UNITS, 7) && PieceAt(t, 7) == Close(8) && LowEscapeAt(t, 1)
    ensures Encode(0xDC00) == LOW_UNITS && Ascii(t, 1, 8)
  {
    assert HexValue(t[3]) == 13 && HexValue(t[4]) == 12 && HexValue(t[5]) == 0 && HexValue(t[6]) == 0;
    assert Hex4(t, 3) == Some(0xDC00);
    var whole := UnicodeUnits(t, 1, 0xDC00);
    assert Encode(0xDC00) == [0xED, 0xB0, 0x80];
  }

  lemma {:induction false} AllAscii(t: bytes, p: nat, e: nat)
    requires p <= e && Ascii(t, p, e)
    ensures CharactersTo(t, p, e)
    decreases e - p
  {
    if p < e {
      AllAscii(t, p + 1, e);
    }
  }
}
