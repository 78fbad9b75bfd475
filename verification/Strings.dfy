/** The string literal: the decoder of the reader and the escaper of the writer. */
module Strings {
  import opened Bytes
  import opened Sax
  import opened Utf8

  predicate IsHex(c: byte) {
    IsDigit(c) || 0x41 <= c <= 0x46 || 0x61 <= c <= 0x66
  }

  function HexValue(c: byte): (d: nat)
    requires IsHex(c)
    ensures d < 16
  {
    if IsDigit(c) then c - 0x30 else if c <= 0x46 then c - 0x41 + 10 else c - 0x61 + 10
  }

  /** The number spelled by four hexadecimal digits at `p`. */
  function Hex4(t: bytes, p: nat): (r: Option<nat>)
    ensures r.Some? ==> r.value <= 0xFFFF && p + 4 <= |t|
  {
    var a, b, c, d := Peek(t, p), Peek(t, p + 1), Peek(t, p + 2), Peek(t, p + 3);
    if IsHex(a) && IsHex(b) && IsHex(c) && IsHex(d) then
      var w, x, y, z := HexValue(a), HexValue(b), HexValue(c), HexValue(d);
      Some(w * 0x1000 + x * 0x100 + y * 0x10 + z)
    else
      None
  }

  /** The reader's escape table: the byte a two-character escape stands for. */
  function SimpleEscape(e: byte): Option<byte> {
    if e == QUOTE then Some(QUOTE)
    else if e == SLASH then Some(SLASH)
    else if e == BACKSLASH then Some(BACKSLASH)
    else if e == 0x62 then Some(0x08)
    else if e == LETTER_F then Some(0x0C)
    else if e == LETTER_N then Some(LINE_FEED)
    else if e == 0x72 then Some(RETURN)
    else if e == LETTER_T then Some(TAB)
    else None
  }

  /** One turn of the decoding loop. */
  datatype Piece =
    | Close(next: nat)
    | Put(units: bytes, next: nat)
    | Fail(code: ErrorCode, offset: nat)

  function PieceAt(t: bytes, p: nat): (piece: Piece)
    requires p <= |t|
    ensures !piece.Fail? ==> p < piece.next <= |t|
    ensures piece.Put? ==> |piece.units| <= piece.next - p
    ensures piece.Put? && piece.next == p + 1 ==> piece.units == [t[p]]
  {
    var c := Peek(t, p);
    if c == BACKSLASH then
      EscapeAt(t, p)
    else if c == QUOTE then
      Close(p + 1)
    else if c == 0 then
      Fail(StringMissQuotationMark, p)
    else if c < 0x20 then
      Fail(StringInvalidEncoding, p)
    else
      Put([c], p + 1)
  }

  function EscapeAt(t: bytes, p: nat): (piece: Piece)
    requires p < |t| && t[p] == BACKSLASH
    ensures piece.Put? || piece.Fail?
    ensures piece.Put? ==> p + 1 < piece.next <= |t| && |piece.units| < piece.next - p
  {
    var e := Peek(t, p + 1);
    if SimpleEscape(e).Some? then
      Put([SimpleEscape(e).value], p + 2)
    else if e != LETTER_U then
      Fail(StringEscapeInvalid, p)
    else
      match Hex4(t, p + 2)
      case None => Fail(StringUnicodeEscapeInvalidHex, p)
      case Some(cp) =>
        if 0xD800 <= cp <= 0xDBFF then SurrogateAt(t, p, cp) else Put(Encode(cp), p + 6)
  }

  /** The second half of a surrogate pair whose first half `high` stands at `p`. */
  function SurrogateAt(t: bytes, p: nat, high: nat): (piece: Piece)
    requires 0xD800 <= high <= 0xDBFF
    ensures piece.Put? || piece.Fail?
    ensures piece.Put? ==> piece.next == p + 12 <= |t| && |piece.units| <= 4
  {
    if Peek(t, p + 6) != BACKSLASH || Peek(t, p + 7) != LETTER_U then
      Fail(StringUnicodeSurrogateInvalid, p)
    else
      match Hex4(t, p + 8)
      case None => Fail(StringUnicodeEscapeInvalidHex, p)
      case Some(low) =>
        if low < 0xDC00 || low > 0xDFFF then
          Fail(StringUnicodeSurrogateInvalid, p)
        else
          Put(Encode((high - 0xD800) * 0x400 + (low - 0xDC00) + 0x10000), p + 12)
  }

  /** The decoded string and the position after its closing quote, or the error that stops decoding. */
  datatype Decoded =
    | Text(str: bytes, next: nat)
    | Bad(code: ErrorCode, offset: nat)

  /** Decodes from `p`, just inside the opening quote or later, with `out` decoded so far. */
  function Unescape(t: bytes, p: nat, out: bytes): (d: Decoded)
    requires p <= |t|
    ensures d.Text? ==> p < d.next <= |t|
    decreases |t| - p, 1
  {
    UnescapePiece(t, p, out)
  }

  /** One turn of the decoding loop and what follows. */
  function UnescapePiece(t: bytes, p: nat, out: bytes): (d: Decoded)
    requires p <= |t|
    ensures d.Text? ==> p < d.next <= |t|
    decreases |t| - p, 0
  {
    match PieceAt(t, p)
    case Close(next) => Text(out, next)
    case Put(units, next) => Unescape(t, next, out + units)
    case Fail(code, offset) => Bad(code, offset)
  }

  /** Decoding never ends with the code that a handler's refusal has. */
  lemma {:induction false} BadIsNoRefusal(t: bytes, p: nat, out: bytes)
    requires p <= |t|
    ensures Unescape(t, p, out).Bad? ==> Unescape(t, p, out).code != Termination
    decreases |t| - p
  {
    var piece := PieceAt(t, p);
    if piece.Put? {
      BadIsNoRefusal(t, piece.next, out + piece.units);
    }
  }

  // ---------------------------------------------------------------- Writing

  /** Whether the writer's target can carry every code point as it is. */
  datatype Target = UnicodeTarget | AsciiTarget

  function HexDigit(d: nat): byte
    requires d < 16
  {
    if d < 10 then 0x30 + d else 0x41 + d - 10
  }

  /** `\uXXXX` for one 16-bit unit. */
  function UnicodeEscape(u: nat): (s: bytes)
    requires u <= 0xFFFF
    ensures |s| == 6
  {
    [BACKSLASH, LETTER_U, HexDigit(u / 0x1000 % 0x10), HexDigit(u / 0x100 % 0x10), HexDigit(u / 0x10 % 0x10),
     HexDigit(u % 0x10)]
  }

  /** The writer's escape table: 0 stands for a byte written as it is. */
  function EscapeLetter(c: byte): byte {
    if c == 0x08 then 0x62
    else if c == TAB then LETTER_T
    else if c == LINE_FEED then LETTER_N
    else if c == 0x0C then LETTER_F
    else if c == RETURN then 0x72
    else if c < 0x20 then LETTER_U
    else if c == QUOTE then QUOTE
    else if c == BACKSLASH then BACKSLASH
    else 0
  }

  /** What the writer puts out for one byte below 0x80, or for any byte of a Unicode target. */
  function EscapeByte(c: byte): bytes {
    var e := EscapeLetter(c);
    if e == 0 then [c]
    else if e == LETTER_U then [BACKSLASH, LETTER_U, ZERO, ZERO, HexDigit(c / 0x10 % 0x10), HexDigit(c % 0x10)]
    else [BACKSLASH, e]
  }

  /** What the writer puts out for one code point of an ASCII target, as one escape or a surrogate pair. */
  function EscapeCodePoint(cp: int): bytes
    requires IsScalar(cp)
  {
    if cp <= 0xFFFF then
      UnicodeEscape(cp)
    else
      var s := cp - 0x10000;
      UnicodeEscape(s / 0x400 + 0xD800) + UnicodeEscape(s % 0x400 + 0xDC00)
  }

  /** How many bytes of `s` one turn of the writer's loop takes at `i`; 0 when decoding them fails. */
  function UnitLength(target: Target, s: bytes, i: nat): (n: nat)
    requires i < |s|
    ensures n != 0 ==> i + n <= |s|
  {
    if target.AsciiTarget? && s[i] >= 0x80 then CharLength(s, i) else 1
  }

  /** What one turn of the writer's loop puts out. */
  function UnitText(target: Target, s: bytes, i: nat): bytes
    requires i < |s| && UnitLength(target, s, i) != 0
  {
    if target.AsciiTarget? && s[i] >= 0x80 then EscapeCodePoint(CharValue(s, i)) else EscapeByte(s[i])
  }

  /** The string can be written to the target: always for Unicode, when well-formed for ASCII. */
  predicate Writable(target: Target, s: bytes, i: nat := 0)
    requires i <= |s|
    decreases |s| - i, 1
  {
    i == |s| || WritableUnit(target, s, i)
  }

  predicate WritableUnit(target: Target, s: bytes, i: nat)
    requires i < |s|
    decreases |s| - i, 0
  {
    UnitLength(target, s, i) != 0 && Writable(target, s, i + UnitLength(target, s, i))
  }

  /** The body of the string literal for `s[i..]`. */
  function Escape(target: Target, s: bytes, i: nat := 0): bytes
    requires i <= |s| && Writable(target, s, i)
    decreases |s| - i, 1
  {
    if i == |s| then [] else EscapeUnit(target, s, i)
  }

  function EscapeUnit(target: Target, s: bytes, i: nat): bytes
    requires i < |s| && WritableUnit(target, s, i)
    decreases |s| - i, 0
  {
    UnitText(target, s, i) + Escape(target, s, i + UnitLength(target, s, i))
  }

  /** The whole string literal. */
  function Quoted(target: Target, s: bytes): bytes
    requires Writable(target, s)
  {
    [QUOTE] + Escape(target, s) + [QUOTE]
  }

  /** Every byte string can be written to a Unicode target. */
  lemma {:induction false} UnicodeWritable(s: bytes, i: nat)
    requires i <= |s|
    ensures Writable(UnicodeTarget, s, i)
    decreases |s| - i
  {
    if i < |s| {
      UnicodeWritable(s, i + 1);
    }
  }

  /** For an ASCII target the strings that can be written are the well-formed ones. */
  lemma {:induction false} AsciiWritable(s: bytes, i: nat)
    requires i <= |s|
    ensures Writable(AsciiTarget, s, i) <==> WellFormed(s[i..])
    decreases |s| - i
  {
    if i < |s| {
      var r := s[i..];
      assert forall k: nat :: Peek(r, k) == Peek(s, i + k);
      assert CharLength(r, 0) == CharLength(s, i);
      var n := CharLength(s, i);
      assert n == UnitLength(AsciiTarget, s, i);
      if n != 0 {
        assert r[n..] == s[i + n..];
        AsciiWritable(s, i + n);
      }
    }
  }

  lemma HexDigitValue(d: nat)
    requires d < 16
    ensures IsHex(HexDigit(d)) && HexValue(HexDigit(d)) == d
  {
  }

  lemma HexDigitsSum(u: nat)
    requires u <= 0xFFFF
    ensures u / 0x1000 % 0x10 * 0x1000 + u / 0x100 % 0x10 * 0x100 + u / 0x10 % 0x10 * 0x10 + u % 0x10 == u
  {
    var x := u / 0x10;
    var y := x / 0x10;
    assert u / 0x100 == y && u / 0x1000 == y / 0x10;
  }

  lemma HexRoundTrip(t: bytes, p: nat, u: nat)
    requires u <= 0xFFFF
    requires p + 4 <= |t|
    requires t[p] == HexDigit(u / 0x1000 % 0x10) && t[p + 1] == HexDigit(u / 0x100 % 0x10)
    requires t[p + 2] == HexDigit(u / 0x10 % 0x10) && t[p + 3] == HexDigit(u % 0x10)
    ensures Hex4(t, p) == Some(u)
  {
    HexDigitValue(u / 0x1000 % 0x10);
    HexDigitValue(u / 0x100 % 0x10);
    HexDigitValue(u / 0x10 % 0x10);
    HexDigitValue(u % 0x10);
    HexDigitsSum(u);
  }

  /** Reading `\uXXXX` gives back its number. */
  lemma UnicodeEscapeRead(t: bytes, p: nat, u: nat)
    requires u <= 0xFFFF && At(t, p, UnicodeEscape(u))
    ensures Peek(t, p) == BACKSLASH && Peek(t, p + 1) == LETTER_U && Hex4(t, p + 2) == Some(u)
  {
    var s := UnicodeEscape(u);
    AtPeek(t, p, s, 0);
    AtPeek(t, p, s, 1);
    AtPeek(t, p, s, 2);
    AtPeek(t, p, s, 3);
    AtPeek(t, p, s, 4);
    AtPeek(t, p, s, 5);
    HexRoundTrip(t, p + 2, u);
  }

  lemma EscapeByteRead(t: bytes, p: nat, c: byte)
    requires At(t, p, EscapeByte(c))
    ensures PieceAt(t, p) == Put([c], p + |EscapeByte(c)|)
  {
    var s := EscapeByte(c);
    AtPeek(t, p, s, 0);
    if |s| == 2 {
      AtPeek(t, p, s, 1);
    } else if |s| == 6 {
      assert s == UnicodeEscape(c);
      UnicodeEscapeRead(t, p, c);
    }
  }

  lemma EscapeIsSurrogate(t: bytes, p: nat, high: nat)
    requires 0xD800 <= high <= 0xDBFF
    requires Peek(t, p) == BACKSLASH && Peek(t, p + 1) == LETTER_U && Hex4(t, p + 2) == Some(high)
    ensures PieceAt(t, p) == SurrogateAt(t, p, high)
  {
  }

  lemma LowRead(t: bytes, p: nat, high: nat, low: nat)
    requires 0xD800 <= high <= 0xDBFF && 0xDC00 <= low <= 0xDFFF
    requires Peek(t, p + 6) == BACKSLASH && Peek(t, p + 7) == LETTER_U && Hex4(t, p + 8) == Some(low)
    ensures SurrogateAt(t, p, high) == Put(Encode((high - 0xD800) * 0x400 + (low - 0xDC00) + 0x10000), p + 12)
  {
  }

  /** Reading an escaped surrogate pair gives the code point it stands for. */
  lemma PairRead(t: bytes, p: nat, high: nat, low: nat)
    requires 0xD800 <= high <= 0xDBFF && 0xDC00 <= low <= 0xDFFF
    requires At(t, p, UnicodeEscape(high) + UnicodeEscape(low))
    ensures PieceAt(t, p) == Put(Encode((high - 0xD800) * 0x400 + (low - 0xDC00) + 0x10000), p + 12)
  {
    AtSplit(t, p, UnicodeEscape(high), UnicodeEscape(low));
    UnicodeEscapeRead(t, p, high);
    UnicodeEscapeRead(t, p + 6, low);
    EscapeIsSurrogate(t, p, high);
    LowRead(t, p, high, low);
  }

  lemma BasicPlaneRead(t: bytes, p: nat, cp: nat)
    requires IsScalar(cp) && cp <= 0xFFFF && At(t, p, UnicodeEscape(cp))
    ensures PieceAt(t, p) == Put(Encode(cp), p + 6)
  {
    UnicodeEscapeRead(t, p, cp);
  }

  lemma SurrogateHalves(cp: nat)
    requires 0x10000 <= cp <= 0x10FFFF
    ensures var high, low := (cp - 0x10000) / 0x400 + 0xD800, (cp - 0x10000) % 0x400 + 0xDC00;
      && 0xD800 <= high <= 0xDBFF && 0xDC00 <= low <= 0xDFFF
      && (high - 0xD800) * 0x400 + (low - 0xDC00) + 0x10000 == cp
  {
  }

  lemma EscapeCodePointRead(t: bytes, p: nat, cp: int)
    requires IsScalar(cp) && At(t, p, EscapeCodePoint(cp))
    ensures PieceAt(t, p) == Put(Encode(cp), p + |EscapeCodePoint(cp)|)
  {
    if cp <= 0xFFFF {
      BasicPlaneRead(t, p, cp);
    } else {
      SurrogateHalves(cp);
      PairRead(t, p, (cp - 0x10000) / 0x400 + 0xD800, (cp - 0x10000) % 0x400 + 0xDC00);
    }
  }

  /** Reading back one written unit appends exactly the bytes it was written for. */
  lemma UnitRead(target: Target, s: bytes, i: nat, t: bytes, p: nat)
    requires i < |s| && UnitLength(target, s, i) != 0
    requires At(t, p, UnitText(target, s, i))
    ensures PieceAt(t, p) == Put(s[i..i + UnitLength(target, s, i)], p + |UnitText(target, s, i)|)
  {
    if target.AsciiTarget? && s[i] >= 0x80 {
      EscapeCodePointRead(t, p, CharValue(s, i));
      EncodeDecode(s, i);
    } else {
      EscapeByteRead(t, p, s[i]);
    }
  }

  lemma UnescapeUnit(target: Target, s: bytes, i: nat, t: bytes, p: nat, out: bytes)
    requires i < |s| && UnitLength(target, s, i) != 0
    requires At(t, p, UnitText(target, s, i))
    ensures Unescape(t, p, out) ==
      Unescape(t, p + |UnitText(target, s, i)|, out + s[i..i + UnitLength(target, s, i)])
  {
    UnitRead(target, s, i, t, p);
  }

  lemma UnescapeClose(t: bytes, p: nat, out: bytes)
    requires At(t, p, [QUOTE])
    ensures Unescape(t, p, out) == Text(out, p + 1)
  {
    AtPeek(t, p, [QUOTE], 0);
  }

  lemma EscapeStep(target: Target, s: bytes, i: nat)
    requires i < |s| && Writable(target, s, i)
    ensures var n := UnitLength(target, s, i);
      n != 0 && Writable(target, s, i + n) &&
      Escape(target, s, i) == UnitText(target, s, i) + Escape(target, s, i + n)
  {
  }

  lemma AtTurn(t: bytes, p: nat, whole: bytes, unit: bytes, rest: bytes)
    requires whole == unit + rest && At(t, p, whole + [QUOTE])
    ensures At(t, p, unit) && At(t, p + |unit|, rest + [QUOTE])
  {
    AtSplit3(t, p, unit, rest, [QUOTE]);
  }

  lemma AppendRest(out: bytes, s: bytes, i: nat, k: nat)
    requires i <= k <= |s|
    ensures (out + s[i..k]) + s[k..] == out + s[i..]
  {
  }

  /** Reading one written unit of `n` bytes, with `rest` after it. */
  lemma ReadUnit(target: Target, s: bytes, i: nat, n: nat, unit: bytes, rest: bytes, t: bytes, p: nat, out: bytes)
    returns (out': bytes)
    requires i < |s| && 0 != n == UnitLength(target, s, i) && unit == UnitText(target, s, i)
    requires At(t, p, (unit + rest) + [QUOTE])
    ensures At(t, p + |unit|, rest + [QUOTE])
    ensures Unescape(t, p, out) == Unescape(t, p + |unit|, out') && out' + s[i + n..] == out + s[i..]
  {
    AtTurn(t, p, unit + rest, unit, rest);
    UnescapeUnit(target, s, i, t, p, out);
    out' := out + s[i..i + n];
    AppendRest(out, s, i, i + n);
  }

  /** The first unit of a written form is read in one turn of `w` characters that yields `n` bytes of `s`. */
  lemma UnescapeTurn(target: Target, s: bytes, i: nat, whole: bytes, t: bytes, p: nat, out: bytes)
    returns (n: nat, w: nat, rest: bytes, out': bytes)
    requires i < |s| && Writable(target, s, i) && whole == Escape(target, s, i)
    requires At(t, p, whole + [QUOTE])
    ensures 0 < n <= |s| - i && Writable(target, s, i + n) && rest == Escape(target, s, i + n)
    ensures |whole| == w + |rest| && At(t, p + w, rest + [QUOTE])
    ensures Unescape(t, p, out) == Unescape(t, p + w, out') && out' + s[i + n..] == out + s[i..]
  {
    EscapeStep(target, s, i);
    n := UnitLength(target, s, i);
    var unit := UnitText(target, s, i);
    w, rest := |unit|, Escape(target, s, i + n);
    out' := ReadUnit(target, s, i, n, unit, rest, t, p, out);
  }

  lemma UnescapeEnd(t: bytes, p: nat, body: bytes, out: bytes)
    requires body == [] && At(t, p, body + [QUOTE])
    ensures Unescape(t, p, out) == Text(out, p + |body| + 1)
  {
    AtSplit(t, p, [], [QUOTE]);
    UnescapeClose(t, p, out);
  }

  lemma NothingLeft(target: Target, s: bytes, i: nat, out: bytes)
    requires i == |s|
    ensures Escape(target, s, i) == [] && out + s[i..] == out
  {
  }

  /** Decoding the written form `body` of `s[i..]` appends those bytes and stops after the closing quote. */
  lemma {:induction false} UnescapeBody(
    target: Target, s: bytes, i: nat, body: bytes, t: bytes, p: nat, out: bytes)
    requires i <= |s| && Writable(target, s, i) && body == Escape(target, s, i)
    requires At(t, p, body + [QUOTE])
    ensures Unescape(t, p, out) == Text(out + s[i..], p + |body| + 1)
    decreases |s| - i
  {
    if i == |s| {
      NothingLeft(target, s, i, out);
      UnescapeEnd(t, p, body, out);
    } else {
      var n, w, rest, out' := UnescapeTurn(target, s, i, body, t, p, out);
      UnescapeBody(target, s, i + n, rest, t, p + w, out');
    }
  }

  /** Decoding a written string returns its bytes, NUL and quotes included, for either target. */
  lemma UnescapeEscape(target: Target, s: bytes, t: bytes, p: nat)
    requires Writable(target, s) && At(t, p, Escape(target, s) + [QUOTE])
    ensures Unescape(t, p, []) == Text(s, p + |Escape(target, s)| + 1)
  {
    UnescapeBody(target, s, 0, Escape(target, s), t, p, []);
    assert [] + s[0..] == s;
  }

  ghost predicate IsAscii(s: bytes) {
    forall k | 0 <= k < |s| :: s[k] < 0x80
  }

  lemma UnitIsAscii(s: bytes, i: nat)
    requires i < |s| && UnitLength(AsciiTarget, s, i) != 0
    ensures IsAscii(UnitText(AsciiTarget, s, i))
  {
    if s[i] >= 0x80 {
      var cp := CharValue(s, i);
      if cp > 0xFFFF {
        var x := cp - 0x10000;
        assert IsAscii(UnicodeEscape(x / 0x400 + 0xD800)) && IsAscii(UnicodeEscape(x % 0x400 + 0xDC00));
      }
    }
  }

  /** What is written to an ASCII target is pure ASCII. */
  lemma {:induction false} EscapeIsAscii(s: bytes, i: nat)
    requires i <= |s| && Writable(AsciiTarget, s, i)
    ensures IsAscii(Escape(AsciiTarget, s, i))
    decreases |s| - i
  {
    if i < |s| {
      EscapeStep(AsciiTarget, s, i);
      UnitIsAscii(s, i);
      EscapeIsAscii(s, i + UnitLength(AsciiTarget, s, i));
    }
  }
}
