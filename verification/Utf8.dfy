/**
 The UTF-8 codec. The grammar of section 4 of RFC 3629 is the reference; the table-driven decoder and
 validator are proved to accept exactly that grammar.
 */
module Utf8 {
  import opened Bytes

  predicate IsScalar(cp: int) {
    0 <= cp <= 0x10FFFF && !(0xD800 <= cp <= 0xDFFF)
  }

  predicate IsTail(c: byte) {
    0x80 <= c <= 0xBF
  }

  /** The four alternatives of `UTF8-char`: how many of the bytes form a character, 0 when none do. */
  function FormLength(a: byte, b: byte, c: byte, d: byte): (n: nat)
    ensures n <= 4
  {
    if a <= 0x7F then 1
    else if 0xC2 <= a <= 0xDF && IsTail(b) then 2
    else if a == 0xE0 && 0xA0 <= b <= 0xBF && IsTail(c) then 3
    else if 0xE1 <= a <= 0xEC && IsTail(b) && IsTail(c) then 3
    else if a == 0xED && 0x80 <= b <= 0x9F && IsTail(c) then 3
    else if 0xEE <= a <= 0xEF && IsTail(b) && IsTail(c) then 3
    else if a == 0xF0 && 0x90 <= b <= 0xBF && IsTail(c) && IsTail(d) then 4
    else if 0xF1 <= a <= 0xF3 && IsTail(b) && IsTail(c) && IsTail(d) then 4
    else if a == 0xF4 && 0x80 <= b <= 0x8F && IsTail(c) && IsTail(d) then 4
    else 0
  }

  /** The code point spelled by the bit groups of section 3 of RFC 3629. */
  function FormValue(a: byte, b: byte, c: byte, d: byte): (cp: int)
    requires FormLength(a, b, c, d) != 0
    ensures IsScalar(cp)
  {
    match FormLength(a, b, c, d)
    case 1 => a
    case 2 => (a - 0xC0) * 0x40 + (b - 0x80)
    case 3 => (a - 0xE0) * 0x1000 + (b - 0x80) * 0x40 + (c - 0x80)
    case _ => (a - 0xF0) * 0x40000 + (b - 0x80) * 0x1000 + (c - 0x80) * 0x40 + (d - 0x80)
  }

  /** How many bytes the character at `p` takes. */
  function CharLength(t: bytes, p: nat): (n: nat)
    ensures n <= 4
    ensures n != 0 && p < |t| ==> p + n <= |t|
  {
    FormLength(Peek(t, p), Peek(t, p + 1), Peek(t, p + 2), Peek(t, p + 3))
  }

  function CharValue(t: bytes, p: nat): (cp: int)
    requires CharLength(t, p) != 0
    ensures IsScalar(cp)
  {
    FormValue(Peek(t, p), Peek(t, p + 1), Peek(t, p + 2), Peek(t, p + 3))
  }

  /** A whole byte string of UTF-8 characters. */
  predicate WellFormed(s: bytes)
    decreases |s|
  {
    s == [] || (CharLength(s, 0) != 0 && WellFormed(s[CharLength(s, 0)..]))
  }

  /** The code units written for one code point; callers respect the source's bound on it. */
  function Encode(cp: int): (s: bytes)
    requires 0 <= cp <= 0x10FFFF
    ensures 1 <= |s| <= 4
    ensures |s| == if cp <= 0x7F then 1 else if cp <= 0x7FF then 2 else if cp <= 0xFFFF then 3 else 4
  {
    if cp <= 0x7F then
      [cp]
    else if cp <= 0x7FF then
      [0xC0 + cp / 0x40, 0x80 + cp % 0x40]
    else if cp <= 0xFFFF then
      [0xE0 + cp / 0x1000, 0x80 + cp / 0x40 % 0x40, 0x80 + cp % 0x40]
    else
      [0xF0 + cp / 0x40000, 0x80 + cp / 0x1000 % 0x40, 0x80 + cp / 0x40 % 0x40, 0x80 + cp % 0x40]
  }

  /** A code point is the sum of its six-bit groups. */
  lemma SixBitGroups(cp: nat)
    ensures cp == cp / 0x40000 * 0x40000 + cp / 0x1000 % 0x40 * 0x1000 + cp / 0x40 % 0x40 * 0x40 + cp % 0x40
    ensures cp < 0x40000 ==> cp / 0x1000 % 0x40 == cp / 0x1000
    ensures cp < 0x1000 ==> cp / 0x40 % 0x40 == cp / 0x40
  {
    var x := cp / 0x40;
    var y := x / 0x40;
    assert cp / 0x1000 == y;
    assert cp / 0x40000 == y / 0x40;
  }

  /** The sum of six-bit groups below 0x40 splits back into them. */
  lemma GroupsSplit(x: nat, y: nat, z: nat, w: nat)
    requires y < 0x40 && z < 0x40 && w < 0x40
    ensures var cp := x * 0x40000 + y * 0x1000 + z * 0x40 + w;
      cp % 0x40 == w && cp / 0x40 % 0x40 == z && cp / 0x1000 % 0x40 == y && cp / 0x40000 == x
  {
    var cp := x * 0x40000 + y * 0x1000 + z * 0x40 + w;
    assert cp / 0x40 == x * 0x1000 + y * 0x40 + z;
    assert cp / 0x1000 == x * 0x40 + y;
  }

  lemma FormOfEncoded2(cp: int, c: byte, d: byte)
    requires 0x80 <= cp <= 0x7FF
    ensures var s := Encode(cp);
      FormLength(s[0], s[1], c, d) == 2 && FormValue(s[0], s[1], c, d) == cp
  {
  }

  lemma FormOfEncoded3(cp: int, d: byte)
    requires 0x800 <= cp <= 0xFFFF && IsScalar(cp)
    ensures var s := Encode(cp);
      FormLength(s[0], s[1], s[2], d) == 3 && FormValue(s[0], s[1], s[2], d) == cp
  {
    SixBitGroups(cp);
  }

  lemma FormOfEncoded4(cp: int)
    requires 0x10000 <= cp <= 0x10FFFF
    ensures var s := Encode(cp);
      FormLength(s[0], s[1], s[2], s[3]) == 4 && FormValue(s[0], s[1], s[2], s[3]) == cp
  {
    SixBitGroups(cp);
  }

  /** Decoding undoes encoding for every scalar value, wherever the bytes stand. */
  lemma DecodeEncode(t: bytes, p: nat, cp: int)
    requires IsScalar(cp)
    requires At(t, p, Encode(cp))
    ensures CharLength(t, p) == |Encode(cp)|
    ensures CharValue(t, p) == cp
  {
    var s := Encode(cp);
    AtPeek(t, p, s, 0);
    if |s| == 2 {
      AtPeek(t, p, s, 1);
      FormOfEncoded2(cp, Peek(t, p + 2), Peek(t, p + 3));
    } else if |s| == 3 {
      AtPeek(t, p, s, 1);
      AtPeek(t, p, s, 2);
      FormOfEncoded3(cp, Peek(t, p + 3));
    } else if |s| == 4 {
      AtPeek(t, p, s, 1);
      AtPeek(t, p, s, 2);
      AtPeek(t, p, s, 3);
      FormOfEncoded4(cp);
    }
  }

  lemma EncodedForm3(a: byte, b: byte, c: byte, d: byte)
    requires FormLength(a, b, c, d) == 3
    ensures Encode(FormValue(a, b, c, d)) == [a, b, c]
  {
    var x: int, y: int, z: int := a, b, c;
    GroupsSplit(0, x - 0xE0, y - 0x80, z - 0x80);
    assert FormValue(a, b, c, d) >= 0x800;
  }

  lemma EncodedForm4(a: byte, b: byte, c: byte, d: byte)
    requires FormLength(a, b, c, d) == 4
    ensures Encode(FormValue(a, b, c, d)) == [a, b, c, d]
  {
    var x: int, y: int, z: int, w: int := a, b, c, d;
    GroupsSplit(x - 0xF0, y - 0x80, z - 0x80, w - 0x80);
    assert FormValue(a, b, c, d) >= 0x10000;
  }

  lemma EncodedForm(a: byte, b: byte, c: byte, d: byte)
    requires FormLength(a, b, c, d) != 0
    ensures Encode(FormValue(a, b, c, d)) == [a, b, c, d][..FormLength(a, b, c, d)]
  {
    var n := FormLength(a, b, c, d);
    if n == 2 {
      var x: int, y: int := a, b;
      GroupsSplit(0, 0, x - 0xC0, y - 0x80);
    } else if n == 3 {
      EncodedForm3(a, b, c, d);
    } else if n == 4 {
      EncodedForm4(a, b, c, d);
    }
  }

  /** Encoding undoes decoding for every accepted character. */
  lemma EncodeDecode(t: bytes, p: nat)
    requires p < |t| && CharLength(t, p) != 0
    ensures Encode(CharValue(t, p)) == t[p..p + CharLength(t, p)]
  {
    EncodedForm(Peek(t, p), Peek(t, p + 1), Peek(t, p + 2), Peek(t, p + 3));
    SlicePeeks(t, p, CharLength(t, p));
  }

  lemma SlicePeeks(t: bytes, p: nat, n: nat)
    requires p + n <= |t| && n <= 4
    ensures t[p..p + n] == [Peek(t, p), Peek(t, p + 1), Peek(t, p + 2), Peek(t, p + 3)][..n]
  {
  }

  /** A surrogate code point is encoded to bytes that the grammar refuses. */
  lemma SurrogateIsRefused(cp: int)
    requires 0xD800 <= cp <= 0xDFFF
    ensures CharLength(Encode(cp), 0) == 0
  {
    assert Encode(cp)[0] == 0xED;
    assert Encode(cp)[1] >= 0xA0 by {
      assert cp / 0x40 % 0x40 >= 0x20;
    }
  }

  /** The character class table of the decoder. */
  function GetRange(c: byte): nat {
    if c <= 0x7F then 0
    else if c <= 0x8F then 0x10
    else if c <= 0x9F then 0x40
    else if c <= 0xBF then 0x20
    else if c <= 0xC1 then 8
    else if c <= 0xDF then 2
    else if c == 0xE0 then 10
    else if c == 0xED then 4
    else if c <= 0xEF then 3
    else if c == 0xF0 then 11
    else if c <= 0xF3 then 6
    else if c == 0xF4 then 5
    else 8
  }

  /** How many bytes follow a leading byte, whether or not they turn out to be right. */
  function TailCount(c: byte): nat {
    match GetRange(c)
    case 2 => 1
    case 3 => 2
    case 4 => 2
    case 5 => 3
    case 6 => 3
    case 10 => 2
    case 11 => 3
    case _ => 0
  }

  /** What a leading byte contributes: `(0xFF >> type) & c`. */
  function LeadBits(c: byte): nat {
    match GetRange(c)
    case 2 => c % 0x40
    case 3 => c % 0x20
    case 4 => c % 0x10
    case 5 => c % 0x08
    case 6 => c % 0x04
    case _ => 0
  }

  /** The classes accepted at each tail position of a leading byte. */
  function TailMask(c: byte, k: nat): nat {
    if k > 0 then 0x70
    else
      match GetRange(c)
      case 4 => 0x50
      case 5 => 0x10
      case 10 => 0x20
      case 11 => 0x60
      case _ => 0x70
  }

  /** `range & mask != 0` for the masks in use, which have no bit outside 0x70. */
  predicate Hits(range: nat, mask: nat) {
    || (range / 0x10 % 2 == 1 && mask / 0x10 % 2 == 1)
    || (range / 0x20 % 2 == 1 && mask / 0x20 % 2 == 1)
    || (range / 0x40 % 2 == 1 && mask / 0x40 % 2 == 1)
  }

  /** Byte `c` passes the test made at tail position `k` of a character that starts with `lead`. */
  predicate TailPasses(lead: byte, k: nat, c: byte) {
    Hits(GetRange(c), TailMask(lead, k))
  }

  lemma TailPassesMeaning(lead: byte, k: nat, c: byte)
    ensures TailPasses(lead, k, c) <==>
      if k > 0 then IsTail(c)
      else if lead == 0xED then 0x80 <= c <= 0x9F
      else if lead == 0xF4 then 0x80 <= c <= 0x8F
      else if lead == 0xE0 then 0xA0 <= c <= 0xBF
      else if lead == 0xF0 then 0x90 <= c <= 0xBF
      else IsTail(c)
  {
  }

  /**
   The decoder takes the leading byte and then exactly as many bytes as its class says, folding six bits of
   each into the code point. It succeeds exactly on the grammar and then yields the grammar's value.
   */
  method Decode(t: bytes, p: nat) returns (ok: bool, codepoint: nat, next: nat)
    requires p < |t|
    ensures ok <==> CharLength(t, p) != 0
    ensures ok ==> codepoint == CharValue(t, p) && next == p + CharLength(t, p)
    ensures next == p + 1 + TailCount(t[p])
  {
    var lead := t[p];
    next := p + 1;
    if lead <= 0x7F {
      return true, lead, next;
    }
    codepoint := LeadBits(lead);
    ok := TailCount(lead) != 0;
    for k := 0 to TailCount(lead)
      invariant next == p + 1 + k
      invariant ok ==> TailCount(lead) != 0 && TailsRight(t, p, k)
      invariant TailCount(lead) != 0 && !ok ==> !TailsRight(t, p, k)
      invariant TailsRight(t, p, k) ==> codepoint == Folded(t, p, k)
    {
      var c := Peek(t, next);
      next := next + 1;
      codepoint := codepoint * 0x40 + c % 0x40;
      ok := ok && TailPasses(lead, k, c);
    }
    TailsMeaning(t, p);
  }

  /** The validator copies the bytes it takes and accepts the same texts as the decoder. */
  method Validate(t: bytes, p: nat) returns (ok: bool, out: bytes, next: nat)
    requires p < |t|
    ensures ok <==> CharLength(t, p) != 0
    ensures ok ==> next == p + CharLength(t, p) && out == t[p..next]
    ensures next == p + 1 + TailCount(t[p]) && |out| == next - p
    ensures forall k | 0 <= k < |out| :: out[k] == Peek(t, p + k)
  {
    var lead := t[p];
    out, next := [lead], p + 1;
    if lead <= 0x7F {
      return true, out, next;
    }
    ok := TailCount(lead) != 0;
    for k := 0 to TailCount(lead)
      invariant next == p + 1 + k && |out| == 1 + k
      invariant forall i | 0 <= i < |out| :: out[i] == Peek(t, p + i)
      invariant ok ==> TailCount(lead) != 0 && TailsRight(t, p, k)
      invariant TailCount(lead) != 0 && !ok ==> !TailsRight(t, p, k)
    {
      var c := Peek(t, next);
      out, next := out + [c], next + 1;
      ok := ok && TailPasses(lead, k, c);
    }
    TailsMeaning(t, p);
  }

  ghost predicate TailsRight(t: bytes, p: nat, k: nat)
    requires p < |t|
  {
    k == 0 || (TailsRight(t, p, k - 1) && TailPasses(t[p], k - 1, Peek(t, p + k)))
  }

  /** The code point accumulated after `k` tail bytes. */
  ghost function Folded(t: bytes, p: nat, k: nat): nat
    requires p < |t|
  {
    if k == 0 then LeadBits(t[p]) else Folded(t, p, k - 1) * 0x40 + Peek(t, p + k) % 0x40
  }

  lemma TailsMeaning(t: bytes, p: nat)
    requires p < |t| && t[p] >= 0x80
    ensures TailCount(t[p]) != 0 && TailsRight(t, p, TailCount(t[p])) <==> CharLength(t, p) != 0
    ensures CharLength(t, p) != 0 ==> CharLength(t, p) == 1 + TailCount(t[p])
    ensures CharLength(t, p) != 0 ==> CharValue(t, p) == Folded(t, p, TailCount(t[p]))
  {
    TailsAccepted(t, p);
    if CharLength(t, p) != 0 {
      FoldedValue(t, p);
    }
  }

  lemma TailsAccepted(t: bytes, p: nat)
    requires p < |t| && t[p] >= 0x80
    ensures TailCount(t[p]) != 0 && TailsRight(t, p, TailCount(t[p])) <==> CharLength(t, p) != 0
    ensures CharLength(t, p) != 0 ==> CharLength(t, p) == 1 + TailCount(t[p])
  {
    var n := TailCount(t[p]);
    TailPassesMeaning(t[p], 0, Peek(t, p + 1));
    TailPassesMeaning(t[p], 1, Peek(t, p + 2));
    TailPassesMeaning(t[p], 2, Peek(t, p + 3));
    assert TailsRight(t, p, 0);
    assert n > 0 ==> (TailsRight(t, p, 1) <==> TailPasses(t[p], 0, Peek(t, p + 1)));
    assert n > 1 ==> (TailsRight(t, p, 2) <==> TailsRight(t, p, 1) && TailPasses(t[p], 1, Peek(t, p + 2)));
  }

  lemma FoldedForm(t: bytes, p: nat, n: nat)
    requires p < |t| && 1 <= n <= 3
    ensures var lead, b, c, d := LeadBits(t[p]), Peek(t, p + 1), Peek(t, p + 2), Peek(t, p + 3);
      Folded(t, p, n) ==
        if n == 1 then lead * 0x40 + b % 0x40
        else if n == 2 then (lead * 0x40 + b % 0x40) * 0x40 + c % 0x40
        else ((lead * 0x40 + b % 0x40) * 0x40 + c % 0x40) * 0x40 + d % 0x40
  {
    assert Folded(t, p, 0) == LeadBits(t[p]);
    assert Folded(t, p, 1) == LeadBits(t[p]) * 0x40 + Peek(t, p + 1) % 0x40;
    assert n >= 2 ==> Folded(t, p, 2) == Folded(t, p, 1) * 0x40 + Peek(t, p + 2) % 0x40;
    assert n == 3 ==> Folded(t, p, 3) == Folded(t, p, 2) * 0x40 + Peek(t, p + 3) % 0x40;
  }

  lemma FormOfBits(a: byte, b: byte, c: byte, d: byte)
    requires FormLength(a, b, c, d) > 1
    ensures var n, lead := FormLength(a, b, c, d), LeadBits(a);
      FormValue(a, b, c, d) ==
        if n == 2 then lead * 0x40 + b % 0x40
        else if n == 3 then (lead * 0x40 + b % 0x40) * 0x40 + c % 0x40
        else ((lead * 0x40 + b % 0x40) * 0x40 + c % 0x40) * 0x40 + d % 0x40
  {
    var n := FormLength(a, b, c, d);
    assert IsTail(b) && b % 0x40 == b - 0x80;
    if n == 2 {
      assert LeadBits(a) == a - 0xC0;
    } else if n == 3 {
      assert LeadBits(a) == a - 0xE0;
    } else {
      assert LeadBits(a) == a - 0xF0;
    }
  }

  lemma FoldedValue(t: bytes, p: nat)
    requires p < |t| && t[p] >= 0x80 && CharLength(t, p) != 0
    ensures CharValue(t, p) == Folded(t, p, CharLength(t, p) - 1)
  {
    FoldedForm(t, p, CharLength(t, p) - 1);
    FormOfBits(Peek(t, p), Peek(t, p + 1), Peek(t, p + 2), Peek(t, p + 3));
  }
}
