/** Number literals: what they denote, which event they become, and how integers are printed. */
module Numbers {
  import opened Bytes
  import opened Sax

  const MAX_INT32 := 0x7FFF_FFFF
  const MAX_UINT32 := 0xFFFF_FFFF
  const MAX_INT64 := 0x7FFF_FFFF_FFFF_FFFF
  const MAX_UINT64 := 0xFFFF_FFFF_FFFF_FFFF
  const MAX_EXACT_DOUBLE := 0x1F_FFFF_FFFF_FFFF

  /** Machine integers: the verifier checks that no operation on them leaves the range. */
  newtype uint32 = x: int | 0 <= x < 0x1_0000_0000
  newtype uint64 = x: int | 0 <= x < 0x1_0000_0000_0000_0000
  newtype int32 = x: int | -0x8000_0000 <= x < 0x8000_0000

  predicate InInt32(x: int) {
    -MAX_INT32 - 1 <= x <= MAX_INT32
  }

  function DigitOf(c: byte): nat
    requires IsDigit(c)
  {
    c - 0x30
  }

  /** The value of the digits in `t[p..q]`. */
  function DigitsValue(t: bytes, p: nat, q: nat): (v: nat)
    requires p <= q <= |t|
    requires forall i | p <= i < q :: IsDigit(t[i])
    decreases q - p
  {
    if p == q then 0 else DigitsValue(t, p, q - 1) * 10 + DigitOf(t[q - 1])
  }

  /** Reading more digits never makes the value smaller. */
  lemma {:induction false} DigitsValueGrows(t: bytes, p: nat, m: nat, q: nat)
    requires p <= m <= q <= |t|
    requires forall i | p <= i < q :: IsDigit(t[i])
    ensures DigitsValue(t, p, m) <= DigitsValue(t, p, q)
    decreases q
  {
    if m < q {
      DigitsValueGrows(t, p, m, q - 1);
    }
  }

  function Pow10(n: nat): nat {
    if n == 0 then 1 else 10 * Pow10(n - 1)
  }

  /** Few digits make a small value. */
  lemma {:induction false} DigitsValueBound(t: bytes, p: nat, q: nat)
    requires p <= q <= |t|
    requires forall i | p <= i < q :: IsDigit(t[i])
    ensures DigitsValue(t, p, q) < Pow10(q - p)
    decreases q - p
  {
    if p < q {
      DigitsValueBound(t, p, q - 1);
    }
  }

  lemma {:induction false} Pow10Grows(n: nat, m: nat)
    requires n <= m
    ensures Pow10(n) <= Pow10(m)
    decreases m
  {
    if n < m {
      Pow10Grows(n, m - 1);
    }
  }

  lemma PowerOfSeventeen()
    ensures Pow10(17) == 100_000_000_000_000_000
  {
    assert Pow10(2) == 100;
    assert Pow10(4) == 10_000;
    assert Pow10(6) == 1_000_000;
    assert Pow10(8) == 100_000_000;
    assert Pow10(10) == 10_000_000_000;
    assert Pow10(12) == 1_000_000_000_000;
    assert Pow10(14) == 100_000_000_000_000;
    assert Pow10(16) == 10_000_000_000_000_000;
  }

  /** A value above 10 to the 17th has at least 18 digits. */
  lemma ManyDigits(t: bytes, p: nat, q: nat)
    requires p <= q <= |t|
    requires forall i | p <= i < q :: IsDigit(t[i])
    requires DigitsValue(t, p, q) > 100_000_000_000_000_000
    ensures q - p >= 18
  {
    DigitsValueBound(t, p, q);
    if q - p <= 17 {
      Pow10Grows(q - p, 17);
      PowerOfSeventeen();
    }
  }

  /** Two's complement negation of an unsigned word, read as a signed number: `(int32_t)(~i + 1)`. */
  function Negated32(i: uint32): int {
    var word := (0x1_0000_0000 - i as int) % 0x1_0000_0000;
    if word >= 0x8000_0000 then word - 0x1_0000_0000 else word
  }

  function Negated64(i: uint64): int {
    var word := (0x1_0000_0000_0000_0000 - i as int) % 0x1_0000_0000_0000_0000;
    if word >= 0x8000_0000_0000_0000 then word - 0x1_0000_0000_0000_0000 else word
  }

  /** Up to the magnitude of the least signed number, negating the word negates the number. */
  lemma NegatedIs(i: uint32, j: uint64)
    ensures i as int <= MAX_INT32 + 1 ==> Negated32(i) == -(i as int)
    ensures j as int <= MAX_INT64 + 1 ==> Negated64(j) == -(j as int)
  {
  }

  /** What the integer loops leave behind, and how many digits after the first they took. */
  datatype Significand = Significand(use64bit: bool, useDouble: bool, i: uint32, i64: uint64, digits: int32)

  /** The significand stands for the value `v` of `n` digits, or has given up on it. */
  ghost predicate Accumulated(s: Significand, minus: bool, v: nat, n: nat) {
    && (s.useDouble ==> s.use64bit && v > Limit64(minus) && s.digits >= 17)
    && (s.use64bit && !s.useDouble ==> s.i64 as int == v && Limit32(minus) < v <= Limit64(minus))
    && (!s.use64bit ==> s.i as int == v && v <= Limit32(minus))
    && (!s.useDouble ==> s.digits as int == n - 1)
  }

  /** The largest magnitude that fits the 32-bit and the 64-bit type of a sign. */
  function Limit32(minus: bool): nat {
    if minus then MAX_INT32 + 1 else MAX_UINT32
  }

  function Limit64(minus: bool): nat {
    if minus then MAX_INT64 + 1 else MAX_UINT64
  }

  /** The event of a literal without fraction and exponent, by the tightest range that holds its value. */
  function IntegerEvent(minus: bool, v: nat): Option<Event> {
    if minus then
      var negated: int := 0 - v as int;
      if v <= MAX_INT32 + 1 then Some(Int(negated))
      else if v <= MAX_INT64 + 1 then Some(Int64(negated))
      else None
    else
      if v <= MAX_UINT32 then Some(Uint(v))
      else if v <= MAX_UINT64 then Some(Uint64(v))
      else None
  }

  /**
   How many fraction digits `t[q..e]` are folded into the significand: all while the 64-bit significand is an
   exact double, then as many as fill 17 significant digits. `digits` counts the significant ones so far.
   */
  function FoldCount(t: bytes, q: nat, e: nat, significand: nat, digits: nat): (n: nat)
    requires q <= e <= |t|
    requires forall i | q <= i < e :: IsDigit(t[i])
    ensures n <= e - q
    decreases e - q
  {
    if q == e then 0
    else if significand <= MAX_EXACT_DOUBLE then
      var next := significand * 10 + DigitOf(t[q]);
      1 + FoldCount(t, q + 1, e, next, if next != 0 then digits + 1 else digits)
    else if digits >= 17 then 0
    else if e - q <= 17 - digits then e - q
    else 17 - digits
  }

  /** The literal's parts: integer digits `[intStart, intEnd)`, fraction up to `fracEnd`, exponent up to `end`. */
  datatype Literal = Literal(
    minus: bool,
    intStart: nat,
    intEnd: nat,
    fracEnd: nat,
    exponentStart: nat,
    exponentMinus: bool,
    end: nat)

  predicate ValidLiteral(t: bytes, l: Literal) {
    && l.intStart < l.intEnd <= l.fracEnd <= l.exponentStart <= l.end <= |t|
    && (forall i | l.intStart <= i < l.intEnd :: IsDigit(t[i]))
    && (l.fracEnd == l.intEnd || (l.intEnd + 1 < l.fracEnd && forall i | l.intEnd < i < l.fracEnd :: IsDigit(t[i])))
    && (l.fracEnd == l.end || l.exponentStart < l.end)
    && (forall i | l.exponentStart <= i < l.end :: IsDigit(t[i]))
  }

  /** The event of a significand that no fraction or exponent follows. */
  function SignificandEvent(s: Significand, minus: bool): Event {
    if s.use64bit then
      (if minus then Int64(Negated64(s.i64)) else Uint64(s.i64 as int))
    else
      (if minus then Int(Negated32(s.i)) else Uint(s.i as int))
  }

  /** The loops find the tightest type exactly when there is one. */
  lemma SignificandEventIs(s: Significand, minus: bool, v: nat, n: nat)
    requires Accumulated(s, minus, v, n)
    ensures s.useDouble <==> IntegerEvent(minus, v).None?
    ensures !s.useDouble ==> IntegerEvent(minus, v) == Some(SignificandEvent(s, minus))
  {
    NegatedIs(s.i, s.i64);
  }

  /** The grammar of a number; an error carries its code and position. */
  datatype Scan = Found(literal: Literal) | Wrong(code: ErrorCode, offset: nat)

  function ScanNumber(t: bytes, p: nat): (s: Scan)
    requires p <= |t|
    ensures s.Found? ==> ValidLiteral(t, s.literal) && p <= s.literal.intStart
  {
    var minus := Peek(t, p) == MINUS;
    var a := if minus then p + 1 else p;
    if !IsDigit(Peek(t, a)) then
      Wrong(ValueInvalid, a)
    else
      ScanFraction(t, minus, a, IntegerEnd(t, a))
  }

  /** The end of the integer part that starts at `p`. */
  function IntegerEnd(t: bytes, p: nat): (q: nat)
    requires p < |t| && IsDigit(t[p])
    ensures p < q <= |t| && forall i | p <= i < q :: IsDigit(t[i])
  {
    if t[p] == ZERO then p + 1 else DigitsEnd(t, p)
  }

  /** Goes on after the integer part `[a, b)` with the fraction, if there is one. */
  function ScanFraction(t: bytes, minus: bool, a: nat, b: nat): (s: Scan)
    requires a < b <= |t| && forall i | a <= i < b :: IsDigit(t[i])
    ensures s.Found? ==> ValidLiteral(t, s.literal)
    ensures s.Found? ==> s.literal.minus == minus && s.literal.intStart == a && s.literal.intEnd == b
  {
    if Peek(t, b) == DOT then
      if IsDigit(Peek(t, b + 1)) then
        ScanExponent(t, Literal(minus, a, b, DigitsEnd(t, b + 1), DigitsEnd(t, b + 1), false, DigitsEnd(t, b + 1)))
      else
        Wrong(NumberMissFraction, b + 1)
    else
      ScanExponent(t, Literal(minus, a, b, b, b, false, b))
  }

  /** Extends a literal that ends at its fraction by the exponent, if there is one. */
  function ScanExponent(t: bytes, l: Literal): (s: Scan)
    requires ValidLiteral(t, l) && l.fracEnd == l.exponentStart == l.end
    ensures s.Found? ==> ValidLiteral(t, s.literal)
    ensures s.Found? ==> s.literal.intStart == l.intStart && s.literal.intEnd == l.intEnd && s.literal.minus == l.minus
    ensures s.Found? ==> s.literal.fracEnd == l.fracEnd
  {
    var c := l.end;
    if Peek(t, c) != 0x65 && Peek(t, c) != 0x45 then
      Found(l)
    else
      var sign := Peek(t, c + 1);
      var d := if sign == PLUS || sign == MINUS then c + 2 else c + 1;
      if IsDigit(Peek(t, d)) then
        Found(l.(exponentStart := d, exponentMinus := sign == MINUS, end := DigitsEnd(t, d)))
      else
        Wrong(NumberMissExponent, d)
  }

  /** A literal up to the end of its fraction. */
  ghost predicate PartialLiteral(t: bytes, l: Literal) {
    ValidLiteral(t, l) && l.fracEnd == l.exponentStart == l.end && !l.exponentMinus
  }

  /** The integer part `[first, intEnd)` of the literal at `start`. */
  ghost predicate IntegerPart(t: bytes, start: nat, minus: bool, first: nat, intEnd: nat) {
    && start <= first < intEnd <= |t| && IsDigit(t[first])
    && minus == (Peek(t, start) == MINUS) && first == (if minus then start + 1 else start)
    && intEnd == IntegerEnd(t, first)
  }

  lemma FractionNext(t: bytes, start: nat, minus: bool, first: nat, intEnd: nat)
    requires IntegerPart(t, start, minus, first, intEnd)
    ensures ScanNumber(t, start) == ScanFraction(t, minus, first, intEnd)
  {
  }

  lemma NoFraction(t: bytes, start: nat, minus: bool, first: nat, intEnd: nat) returns (l: Literal)
    requires IntegerPart(t, start, minus, first, intEnd) && Peek(t, intEnd) != DOT
    ensures l == Literal(minus, first, intEnd, intEnd, intEnd, false, intEnd)
    ensures PartialLiteral(t, l) && FractionShift(t, l) == 0 && ScanNumber(t, start) == ScanExponent(t, l)
  {
    l := Literal(minus, first, intEnd, intEnd, intEnd, false, intEnd);
    FractionNext(t, start, minus, first, intEnd);
  }

  lemma WithFraction(t: bytes, start: nat, minus: bool, first: nat, intEnd: nat) returns (l: Literal)
    requires IntegerPart(t, start, minus, first, intEnd) && Peek(t, intEnd) == DOT && IsDigit(Peek(t, intEnd + 1))
    ensures var end := DigitsEnd(t, intEnd + 1);
      l == Literal(minus, first, intEnd, end, end, false, end) && intEnd + 1 < end
    ensures PartialLiteral(t, l) && ScanNumber(t, start) == ScanExponent(t, l)
  {
    var end := DigitsEnd(t, intEnd + 1);
    l := Literal(minus, first, intEnd, end, end, false, end);
    FractionNext(t, start, minus, first, intEnd);
  }

  lemma FractionMissing(t: bytes, start: nat, minus: bool, first: nat, intEnd: nat)
    requires IntegerPart(t, start, minus, first, intEnd) && Peek(t, intEnd) == DOT && !IsDigit(Peek(t, intEnd + 1))
    ensures ScanNumber(t, start) == Wrong(NumberMissFraction, intEnd + 1)
  {
    FractionNext(t, start, minus, first, intEnd);
  }

  function IntegerValue(t: bytes, l: Literal): nat
    requires ValidLiteral(t, l)
  {
    DigitsValue(t, l.intStart, l.intEnd)
  }

  /** Minus the number of fraction digits folded into the significand. */
  function FractionShift(t: bytes, l: Literal): (shift: int)
    requires ValidLiteral(t, l)
    ensures -|t| <= shift <= 0
  {
    if l.fracEnd == l.intEnd || IntegerEvent(l.minus, IntegerValue(t, l)).None? then 0
    else
      var folded: int := FoldCount(t, l.intEnd + 1, l.fracEnd, IntegerValue(t, l), l.intEnd - l.intStart - 1);
      -folded
  }

  /** A positive exponent the reader gives up on, because the digits folded so far need more than 10^308. */
  predicate ExponentTooBig(t: bytes, l: Literal)
    requires ValidLiteral(t, l)
  {
    !l.exponentMinus && DigitsValue(t, l.exponentStart, l.end) > 308 - FractionShift(t, l)
  }

  /** Parses the number at `p` and hands its event over. */
  function Number(cfg: Config, t: bytes, p: nat, log: seq<Event>): (o: Outcome)
    requires p <= |t|
    ensures o.Fine? ==> p < o.pos <= |t|
  {
    match ScanNumber(t, p)
    case Wrong(code, offset) => Halt(log, code, offset)
    case Found(l) =>
      if l.end == l.intEnd && IntegerEvent(l.minus, IntegerValue(t, l)).Some? then
        Emit(cfg, log, IntegerEvent(l.minus, IntegerValue(t, l)).value, l.end, p)
      else if ExponentTooBig(t, l) || cfg.overflows(t[p..l.end]) then
        Halt(log, NumberTooBig, p)
      else
        Emit(cfg, log, Double(t[p..l.end]), l.end, p)
  }

  lemma NumberWrong(cfg: Config, t: bytes, p: nat, log: seq<Event>, code: ErrorCode, offset: nat)
    requires p <= |t| && ScanNumber(t, p) == Wrong(code, offset)
    ensures Number(cfg, t, p, log) == Halt(log, code, offset)
  {
  }

  lemma NumberTooLarge(cfg: Config, t: bytes, p: nat, log: seq<Event>, l: Literal)
    requires p <= |t| && ScanNumber(t, p) == Found(l) && ExponentTooBig(t, l)
    ensures Number(cfg, t, p, log) == Halt(log, NumberTooBig, p)
  {
  }

  lemma NumberInteger(cfg: Config, t: bytes, p: nat, log: seq<Event>, l: Literal, e: Event)
    requires p <= |t| && ScanNumber(t, p) == Found(l) && l.end == l.intEnd
    requires IntegerEvent(l.minus, IntegerValue(t, l)) == Some(e)
    ensures Number(cfg, t, p, log) == Emit(cfg, log, e, l.end, p)
  {
  }

  lemma NumberDouble(cfg: Config, t: bytes, p: nat, log: seq<Event>, l: Literal)
    requires p <= |t| && ScanNumber(t, p) == Found(l) && !ExponentTooBig(t, l)
    requires l.end != l.intEnd || IntegerEvent(l.minus, IntegerValue(t, l)).None?
    ensures p <= l.end && Number(cfg, t, p, log) ==
      if cfg.overflows(t[p..l.end]) then Halt(log, NumberTooBig, p)
      else Emit(cfg, log, Double(t[p..l.end]), l.end, p)
  {
  }

  // ---------------------------------------------------------------- Printing

  /** The shortest decimal digits of a natural number. */
  function Decimal(n: nat): (s: bytes)
    ensures |s| > 0
  {
    if n < 10 then [0x30 + n] else Decimal(n / 10) + [0x30 + n % 10]
  }

  function DecimalInt(i: int): bytes {
    if i < 0 then [MINUS] + Decimal(-i) else Decimal(i)
  }

  /** Printed digits are read back as the number; only zero starts with a zero. */
  lemma {:induction false} DecimalRead(t: bytes, p: nat, n: nat)
    requires At(t, p, Decimal(n))
    ensures forall i | p <= i < p + |Decimal(n)| :: IsDigit(t[i])
    ensures DigitsValue(t, p, p + |Decimal(n)|) == n
    ensures t[p] == ZERO <==> n == 0
    ensures n == 0 ==> |Decimal(n)| == 1
  {
    if n < 10 {
      AtPeek(t, p, Decimal(n), 0);
      assert DigitsValue(t, p, p) == 0;
    } else {
      var s := Decimal(n / 10);
      AtSplit(t, p, s, [0x30 + n % 10]);
      AtPeek(t, p + |s|, [0x30 + n % 10], 0);
      DecimalRead(t, p, n / 10);
    }
  }

  ghost predicate EndsNumber(c: byte) {
    !IsDigit(c) && c != DOT && c != 0x65 && c != 0x45
  }

  /** A printed natural number followed by a delimiter scans as exactly its digits. */
  lemma ScanDecimal(t: bytes, p: nat, a: nat, minus: bool, n: nat)
    requires p <= |t| && At(t, a, Decimal(n))
    requires EndsNumber(Peek(t, a + |Decimal(n)|))
    requires if minus then a == p + 1 && Peek(t, p) == MINUS else a == p
    ensures ScanNumber(t, p).Found?
    ensures var l := ScanNumber(t, p).literal;
      l.minus == minus && l.end == l.intEnd == a + |Decimal(n)| && IntegerValue(t, l) == n
  {
    var b := a + |Decimal(n)|;
    DecimalRead(t, a, n);
    AtPeek(t, a, Decimal(n), 0);
    if n == 0 {
      assert b == a + 1;
    } else {
      DigitsEndIs(t, a, b);
    }
  }

  /** An integer that fits 64 bits is read back as an integer event with its value. */
  lemma NumberDecimalInt(cfg: Config, t: bytes, p: nat, i: int, log: seq<Event>)
    requires -MAX_INT64 - 1 <= i <= MAX_UINT64
    requires At(t, p, DecimalInt(i))
    requires EndsNumber(Peek(t, p + |DecimalInt(i)|))
    ensures IntegerEvent(i < 0, if i < 0 then -i else i).Some?
    ensures Number(cfg, t, p, log)
      == Emit(cfg, log, IntegerEvent(i < 0, if i < 0 then -i else i).value, p + |DecimalInt(i)|, p)
  {
    if i < 0 {
      AtSplit(t, p, [MINUS], Decimal(-i));
      AtPeek(t, p, [MINUS], 0);
      ScanDecimal(t, p, p + 1, true, -i);
      ScannedInteger(cfg, t, p, true, -i, p + |DecimalInt(i)|, log);
    } else {
      DecimalRead(t, p, i);
      AtPeek(t, p, Decimal(i), 0);
      ScanDecimal(t, p, p, false, i);
      ScannedInteger(cfg, t, p, false, i, p + |DecimalInt(i)|, log);
    }
  }

  lemma ScannedInteger(cfg: Config, t: bytes, p: nat, minus: bool, n: nat, end: nat, log: seq<Event>)
    requires p <= |t| && ScanNumber(t, p).Found? && IntegerEvent(minus, n).Some?
    requires var l := ScanNumber(t, p).literal;
      l.minus == minus && l.end == l.intEnd == end && IntegerValue(t, l) == n
    ensures Number(cfg, t, p, log) == Emit(cfg, log, IntegerEvent(minus, n).value, end, p)
  {
    NumberInteger(cfg, t, p, log, ScanNumber(t, p).literal, IntegerEvent(minus, n).value);
  }
}
