/** Code units, null-terminated text and the characters JSON gives a meaning to. */
module Bytes {

  type byte = b: int | 0 <= b < 256

  type bytes = seq<byte>

  datatype Option<+T> = None | Some(value: T)

  const TAB: byte := 0x09
  const LINE_FEED: byte := 0x0A
  const RETURN: byte := 0x0D
  const SPACE: byte := 0x20
  const QUOTE: byte := 0x22
  const HASH: byte := 0x23
  const PERCENT: byte := 0x25
  const STAR: byte := 0x2A
  const PLUS: byte := 0x2B
  const COMMA: byte := 0x2C
  const MINUS: byte := 0x2D
  const DOT: byte := 0x2E
  const SLASH: byte := 0x2F
  const ZERO: byte := 0x30
  const COLON: byte := 0x3A
  const LEFT_BRACKET: byte := 0x5B
  const BACKSLASH: byte := 0x5C
  const RIGHT_BRACKET: byte := 0x5D
  const LETTER_F: byte := 0x66
  const LETTER_N: byte := 0x6E
  const LETTER_T: byte := 0x74
  const LETTER_U: byte := 0x75
  const LEFT_CURLY: byte := 0x7B
  const RIGHT_CURLY: byte := 0x7D
  const TILDE: byte := 0x7E

  const NULL_WORD: bytes := [0x6E, 0x75, 0x6C, 0x6C]
  const TRUE_WORD: bytes := [0x74, 0x72, 0x75, 0x65]
  const FALSE_WORD: bytes := [0x66, 0x61, 0x6C, 0x73, 0x65]

  /** The character under a cursor of a null-terminated text. */
  function Peek(t: bytes, p: nat): byte {
    if p < |t| then t[p] else 0
  }

  predicate IsSpace(c: byte) {
    c == SPACE || c == LINE_FEED || c == RETURN || c == TAB
  }

  predicate IsDigit(c: byte) {
    0x30 <= c <= 0x39
  }

  ghost predicate AllSpace(s: bytes) {
    forall i | 0 <= i < |s| :: IsSpace(s[i])
  }

  /** Text `w` stands in `t` at position `p`. */
  ghost predicate At(t: bytes, p: nat, w: bytes)
    decreases |w|, 1
  {
    p + |w| <= |t| && AtEach(t, p, w)
  }

  ghost predicate AtEach(t: bytes, p: nat, w: bytes)
    requires p + |w| <= |t|
    decreases |w|, 0
  {
    w == [] || (t[p] == w[0] && At(t, p + 1, w[1..]))
  }

  lemma {:induction false} AtSplit(t: bytes, p: nat, v: bytes, w: bytes)
    requires At(t, p, v + w)
    ensures At(t, p, v) && At(t, p + |v|, w)
    decreases |v|
  {
    if v == [] {
      assert v + w == w;
    } else {
      assert (v + w)[1..] == v[1..] + w;
      AtSplit(t, p + 1, v[1..], w);
    }
  }

  lemma AtSplit3(t: bytes, p: nat, u: bytes, v: bytes, w: bytes)
    requires At(t, p, u + v + w)
    ensures At(t, p, u) && At(t, p + |u|, v) && At(t, p + |u|, v + w) && At(t, p + |u| + |v|, w)
  {
    assert u + v + w == u + (v + w);
    AtSplit(t, p, u, v + w);
    AtSplit(t, p + |u|, v, w);
  }

  lemma {:induction false} AtPeek(t: bytes, p: nat, w: bytes, i: nat)
    requires At(t, p, w) && i < |w|
    ensures p + i < |t| && t[p + i] == Peek(t, p + i) == w[i]
    decreases i
  {
    if i > 0 {
      AtPeek(t, p + 1, w[1..], i - 1);
    }
  }

  /** Every text stands between what comes before and after it. */
  lemma {:induction false} AtMiddle(before: bytes, w: bytes, after: bytes)
    ensures At(before + w + after, |before|, w)
    decreases |w|
  {
    if w != [] {
      assert before + w + after == (before + [w[0]]) + w[1..] + after;
      AtMiddle(before + [w[0]], w[1..], after);
    }
  }

  /** First position at or after `p` that holds no white space. */
  function SkipSpace(t: bytes, p: nat): (q: nat)
    requires p <= |t|
    ensures p <= q <= |t|
    ensures Peek(t, q) != 0x20 && Peek(t, q) != 0x0A && Peek(t, q) != 0x0D && Peek(t, q) != 0x09
    ensures forall i | p <= i < q :: t[i] == 0x20 || t[i] == 0x0A || t[i] == 0x0D || t[i] == 0x09
    decreases |t| - p
  {
    if IsSpace(Peek(t, p)) then SkipSpace(t, p + 1) else p
  }

  /** First position at or after `p` that holds no decimal digit. */
  function DigitsEnd(t: bytes, p: nat): (q: nat)
    requires p <= |t|
    ensures p <= q <= |t|
    ensures !IsDigit(Peek(t, q))
    ensures forall i | p <= i < q :: IsDigit(t[i])
    decreases |t| - p
  {
    if IsDigit(Peek(t, p)) then DigitsEnd(t, p + 1) else p
  }

  /** A run of digits ends where the first other character stands. */
  lemma {:induction false} DigitsEndIs(t: bytes, p: nat, q: nat)
    requires p <= q <= |t|
    requires forall i | p <= i < q :: IsDigit(t[i])
    requires !IsDigit(Peek(t, q))
    ensures DigitsEnd(t, p) == q
    decreases q - p
  {
    if p < q {
      DigitsEndIs(t, p + 1, q);
    }
  }

  lemma {:induction false} DigitsEndFrom(t: bytes, p: nat, m: nat)
    requires p <= |t| && p <= m <= DigitsEnd(t, p)
    ensures DigitsEnd(t, m) == DigitsEnd(t, p)
    decreases m - p
  {
    if p < m {
      DigitsEndFrom(t, p + 1, m);
    }
  }

  /** White space ends where the first other character stands. */
  lemma {:induction false} SkipSpaceIs(t: bytes, p: nat, s: bytes)
    requires At(t, p, s) && AllSpace(s)
    requires !IsSpace(Peek(t, p + |s|))
    ensures SkipSpace(t, p) == p + |s|
    decreases |s|
  {
    if s != [] {
      AtPeek(t, p, s, 0);
      assert s == [s[0]] + s[1..];
      AtSplit(t, p, [s[0]], s[1..]);
      SkipSpaceIs(t, p + 1, s[1..]);
    }
  }
}
