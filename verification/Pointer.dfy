/** JSON pointers: reading and printing in the string form and in the form of a URI fragment. */
module Pointer {
  import opened Bytes
  import opened Numbers
  import opened Strings
  import Utf8

  /** The index of a name that is no array index. */
  const INVALID_INDEX := 0xFFFF_FFFF

  datatype Token = Token(name: bytes, index: nat)

  datatype ErrorCode = TokenMustBeginWithSolidus | InvalidEscape | InvalidPercentEncoding | CharacterMustPercentEncode

  datatype Result = Tokens(tokens: seq<Token>) | Error(code: ErrorCode, offset: nat)

  /** Anything but the unreserved characters of section 2.3 of RFC 3986. */
  predicate NeedPercentEncode(c: byte) {
    !(0x30 <= c <= 0x39 || 0x41 <= c <= 0x5A || 0x61 <= c <= 0x7A || c == MINUS || c == DOT || c == 0x5F || c == TILDE)
  }

  // ---------------------------------------------------------------- Indices

  predicate AllDigits(name: bytes) {
    forall i | 0 <= i < |name| :: IsDigit(name[i])
  }

  /** The name looks like an array index: digits without a leading zero. */
  predicate Numeric(name: bytes) {
    name != [] && AllDigits(name) && (|name| > 1 ==> name[0] != ZERO)
  }

  /** 32-bit conversion from the `j`-th digit on; none when a step makes the number smaller. */
  function Convert(name: bytes, j: nat, n: nat): (r: Option<nat>)
    requires j <= |name| && AllDigits(name)
    decreases |name| - j
  {
    if j == |name| then Some(n)
    else
      var m := (n * 10 + DigitOf(name[j])) % 0x1_0000_0000;
      if m < n then None else Convert(name, j + 1, m)
  }

  function IndexOf(name: bytes): nat {
    if !Numeric(name) then INVALID_INDEX
    else
      match Convert(name, 0, 0)
      case Some(n) => n
      case None => INVALID_INDEX
  }

  /** The value of the first `j` digits as the 32-bit variable holds it. */
  function Held(name: bytes, j: nat): nat
    requires j <= |name| && AllDigits(name)
  {
    DigitsValue(name, 0, j) % 0x1_0000_0000
  }

  /** Some digit makes the 32-bit variable smaller. */
  ghost predicate Drops(name: bytes, j: nat)
    requires AllDigits(name)
  {
    exists k | j <= k < |name| :: Held(name, k + 1) < Held(name, k)
  }

  lemma HeldNext(name: bytes, j: nat)
    requires j < |name| && AllDigits(name)
    ensures (Held(name, j) * 10 + DigitOf(name[j])) % 0x1_0000_0000 == Held(name, j + 1)
  {
    var v := DigitsValue(name, 0, j);
    assert DigitsValue(name, 0, j + 1) == v * 10 + DigitOf(name[j]);
    var q := v / 0x1_0000_0000;
    assert v == q * 0x1_0000_0000 + Held(name, j);
    assert v * 10 + DigitOf(name[j]) == (q * 10) * 0x1_0000_0000 + (Held(name, j) * 10 + DigitOf(name[j]));
    ModPlus(q * 10, Held(name, j) * 10 + DigitOf(name[j]));
  }

  lemma ModPlus(q: nat, r: nat)
    ensures (q * 0x1_0000_0000 + r) % 0x1_0000_0000 == r % 0x1_0000_0000
  {
  }

  lemma {:induction false} ConvertIs(name: bytes, j: nat)
    requires j <= |name| && AllDigits(name)
    ensures Convert(name, j, Held(name, j)) == if Drops(name, j) then None else Some(Held(name, |name|))
    decreases |name| - j
  {
    if j < |name| {
      HeldNext(name, j);
      ConvertIs(name, j + 1);
      assert Drops(name, j) <==> Held(name, j + 1) < Held(name, j) || Drops(name, j + 1);
    }
  }

  /** A value below 2^32 never drops on the way. */
  lemma SmallNeverDrops(name: bytes)
    requires AllDigits(name) && DigitsValue(name, 0, |name|) < 0x1_0000_0000
    ensures !Drops(name, 0) && Held(name, |name|) == DigitsValue(name, 0, |name|)
  {
    forall k | 0 <= k < |name|
      ensures Held(name, k + 1) >= Held(name, k)
    {
      DigitsValueGrows(name, 0, k, k + 1);
      DigitsValueGrows(name, 0, k + 1, |name|);
      assert Held(name, k + 1) == DigitsValue(name, 0, k + 1) && Held(name, k) == DigitsValue(name, 0, k);
    }
  }

  /** The index a numeric name should have. */
  function RightIndex(name: bytes): nat
    requires AllDigits(name)
  {
    var v := DigitsValue(name, 0, |name|);
    if v < INVALID_INDEX then v else INVALID_INDEX
  }

  /**
   Exactly when a numeric name gets the right index: when its value fits 32 bits, or when the wrap shows as a drop,
   or when what is left happens to be the invalid index.
   */
  lemma IndexExact(name: bytes)
    requires Numeric(name)
    ensures IndexOf(name) == RightIndex(name) <==>
      || DigitsValue(name, 0, |name|) <= INVALID_INDEX
      || Drops(name, 0)
      || Held(name, |name|) == INVALID_INDEX
    ensures IndexOf(name) == if Drops(name, 0) then 0xFFFF_FFFF else DigitsValue(name, 0, |name|) % 0x1_0000_0000
  {
    assert Held(name, 0) == 0;
    ConvertIs(name, 0);
    if DigitsValue(name, 0, |name|) <= INVALID_INDEX {
      SmallNeverDrops(name);
    }
  }

  /** The name 5000000000 is taken for index 705032704: 500000000 times ten wraps to something larger. */
  lemma WrapUnseen()
    ensures var name := [0x35, 0x30, 0x30, 0x30, 0x30, 0x30, 0x30, 0x30, 0x30, 0x30];
      Numeric(name) && IndexOf(name) == 705_032_704 != RightIndex(name)
  {
    var name: bytes := [0x35, 0x30, 0x30, 0x30, 0x30, 0x30, 0x30, 0x30, 0x30, 0x30];
    FiveBillion(name);
    ConvertIs(name, 0);
  }

  lemma FiveBillion(name: bytes)
    requires name == [0x35, 0x30, 0x30, 0x30, 0x30, 0x30, 0x30, 0x30, 0x30, 0x30]
    ensures AllDigits(name) && !Drops(name, 0)
    ensures Held(name, 0) == 0 && Held(name, 10) == 705_032_704 && RightIndex(name) == INVALID_INDEX
  {
    assert DigitsValue(name, 0, 1) == 5;
    assert DigitsValue(name, 0, 2) == 50;
    assert DigitsValue(name, 0, 3) == 500;
    assert DigitsValue(name, 0, 4) == 5_000;
    assert DigitsValue(name, 0, 5) == 50_000;
    assert DigitsValue(name, 0, 6) == 500_000;
    assert DigitsValue(name, 0, 7) == 5_000_000;
    assert DigitsValue(name, 0, 8) == 50_000_000;
    assert DigitsValue(name, 0, 9) == 500_000_000;
    assert DigitsValue(name, 0, 10) == 5_000_000_000;
  }

  // ---------------------------------------------------------------- Reading

  /** The byte spelled by `%XY` at `i`. */
  function Triplet(s: bytes, i: nat): (r: Option<byte>)
    ensures r.Some? ==> i + 3 <= |s|
  {
    if i + 3 <= |s| && s[i] == PERCENT && IsHex(s[i + 1]) && IsHex(s[i + 2]) then
      Some(HexValue(s[i + 1]) * 0x10 + HexValue(s[i + 2]))
    else
      None
  }

  /** The bytes spelled by `n` triplets. */
  function Triplets(s: bytes, i: nat, n: nat): (r: Option<bytes>)
    ensures r.Some? ==> |r.value| == n && (n > 0 ==> i + 3 * n <= |s|)
    decreases n
  {
    if n == 0 then Some([])
    else
      match Triplets(s, i, n - 1)
      case None => None
      case Some(b) =>
        match Triplet(s, i + 3 * (n - 1))
        case None => None
        case Some(c) => Some(b + [c])
  }

  /** One turn of the loop over a name. */
  datatype Turn =
    | NameEnd
    | One(c: byte, next: nat)
    | Many(units: bytes, next: nat)
    | Refused(code: ErrorCode, offset: nat)

  /** The turn after an optional percent decoding has given `c` and moved on to `i`. */
  function Unescaped(s: bytes, c: byte, i: nat): (t: Turn)
    requires i <= |s|
    ensures t.One? ==> i <= t.next <= |s|
    ensures !t.NameEnd? && !t.Many?
  {
    if c != TILDE then One(c, i)
    else if i < |s| && s[i] == ZERO then One(TILDE, i + 1)
    else if i < |s| && s[i] == 0x31 then One(SLASH, i + 1)
    else Refused(InvalidEscape, i)
  }

  /** The code units of the percent-encoded character at `i`, when there is one. */
  function PercentUnits(s: bytes, i: nat): (r: Option<bytes>)
    ensures r.Some? ==> 1 <= |r.value| <= 4 && i + 3 * |r.value| <= |s|
  {
    var lead := Triplet(s, i);
    if lead.None? then None
    else
      var n := 1 + Utf8.TailCount(lead.value);
      var units := Triplets(s, i, n);
      if units.None? || Utf8.CharLength(units.value, 0) != n then None else units
  }

  /** A percent-encoded character: one code unit goes on as a character, several are taken as they are. */
  function PercentDecoded(s: bytes, i: nat): (t: Turn)
    requires i < |s|
    ensures t.One? ==> i + 3 <= t.next <= |s|
    ensures t.Many? ==> i + 3 * |t.units| == t.next <= |s| && 1 < |t.units| <= 4
    ensures !t.NameEnd?
  {
    match PercentUnits(s, i)
    case None => Refused(InvalidPercentEncoding, i)
    case Some(units) => if |units| == 1 then Unescaped(s, units[0], i + 3) else Many(units, i + 3 * |units|)
  }

  function TurnAt(s: bytes, i: nat, uri: bool): (t: Turn)
    requires i <= |s|
    ensures t.One? ==> i < t.next <= |s|
    ensures t.Many? ==> i + |t.units| < t.next <= |s| && 1 < |t.units| <= 4
  {
    if i == |s| || s[i] == SLASH then NameEnd
    else if uri && s[i] == PERCENT then PercentDecoded(s, i)
    else if uri && NeedPercentEncode(s[i]) then Refused(CharacterMustPercentEncode, i)
    else Unescaped(s, s[i], i + 1)
  }

  datatype Named = Name(name: bytes, next: nat) | NoName(code: ErrorCode, offset: nat)

  /** The rest of a name from `i` on, with `name` read so far. */
  function NameFrom(s: bytes, i: nat, uri: bool, name: bytes): (r: Named)
    requires i <= |s|
    ensures r.Name? ==> i <= r.next <= |s| && (r.next == |s| || s[r.next] == SLASH)
    decreases |s| - i, 1
  {
    NameTurn(s, i, uri, name)
  }

  function NameTurn(s: bytes, i: nat, uri: bool, name: bytes): (r: Named)
    requires i <= |s|
    ensures r.Name? ==> i <= r.next <= |s| && (r.next == |s| || s[r.next] == SLASH)
    decreases |s| - i, 0
  {
    match TurnAt(s, i, uri)
    case NameEnd => Name(name, i)
    case One(c, next) => NameFrom(s, next, uri, name + [c])
    case Many(units, next) => NameFrom(s, next, uri, name + units)
    case Refused(code, offset) => NoName(code, offset)
  }

  /** The tokens from `i` on, which is the end or the slash of a token. */
  function TokensFrom(s: bytes, i: nat, uri: bool, tokens: seq<Token>): Result
    requires i <= |s| && (i < |s| ==> s[i] == SLASH)
    decreases |s| - i
  {
    if i == |s| then Tokens(tokens)
    else
      match NameFrom(s, i + 1, uri, [])
      case Name(name, next) => TokensFrom(s, next, uri, tokens + [Token(name, IndexOf(name))])
      case NoName(code, offset) => Error(code, offset)
  }

  function Parse(s: bytes): Result {
    var uri := Peek(s, 0) == HASH;
    var i := if uri then 1 else 0;
    if i != |s| && s[i] != SLASH then Error(TokenMustBeginWithSolidus, i) else TokensFrom(s, i, uri, [])
  }

  // ---------------------------------------------------------------- Printing

  function PercentText(units: bytes): (text: bytes)
    ensures |text| == 3 * |units|
    decreases |units|
  {
    if units == [] then []
    else
      var last := |units| - 1;
      PercentText(units[..last]) + [PERCENT, HexDigit(units[last] / 0x10), HexDigit(units[last] % 0x10)]
  }

  /** How many bytes of the name one turn of the printer takes; 0 when they cannot be printed. */
  function NameUnitLength(name: bytes, j: nat, uri: bool): (n: nat)
    requires j < |name|
    ensures j + n <= |name|
  {
    if name[j] == TILDE || name[j] == SLASH || !uri || !NeedPercentEncode(name[j]) then 1
    else Utf8.CharLength(name, j)
  }

  function NameUnitText(name: bytes, j: nat, uri: bool): bytes
    requires j < |name| && NameUnitLength(name, j, uri) != 0
  {
    if name[j] == TILDE then [TILDE, ZERO]
    else if name[j] == SLASH then [TILDE, 0x31]
    else if uri && NeedPercentEncode(name[j]) then PercentText(name[j..j + NameUnitLength(name, j, uri)])
    else [name[j]]
  }

  /** The rest of a name from `j` on; none when it is not well-formed and has to be. */
  function PrintName(name: bytes, j: nat, uri: bool): Option<bytes>
    requires j <= |name|
    decreases |name| - j, 1
  {
    if j == |name| then Some([]) else PrintUnit(name, j, uri)
  }

  /** One turn of the printer and what follows. */
  function PrintUnit(name: bytes, j: nat, uri: bool): Option<bytes>
    requires j < |name|
    decreases |name| - j, 0
  {
    var n := NameUnitLength(name, j, uri);
    if n == 0 then None
    else
      match PrintName(name, j + n, uri)
      case None => None
      case Some(rest) => Some(NameUnitText(name, j, uri) + rest)
  }

  lemma PrintStep(name: bytes, j: nat, uri: bool)
    requires j < |name|
    ensures var n := NameUnitLength(name, j, uri);
      && (PrintName(name, j, uri).Some? <==> n != 0 && PrintName(name, j + n, uri).Some?)
      && (PrintName(name, j, uri).Some? ==>
            PrintName(name, j, uri).value == NameUnitText(name, j, uri) + PrintName(name, j + n, uri).value)
  {
  }

  /** The tokens from the `k`-th on, each with its slash. */
  function PrintTokens(tokens: seq<Token>, k: nat, uri: bool): Option<bytes>
    requires k <= |tokens|
    decreases |tokens| - k
  {
    if k == |tokens| then Some([])
    else
      match PrintName(tokens[k].name, 0, uri)
      case None => None
      case Some(own) =>
        match PrintTokens(tokens, k + 1, uri)
        case None => None
        case Some(rest) => Some([SLASH] + own + rest)
  }

  function Stringify(tokens: seq<Token>, uri: bool): Option<bytes> {
    match PrintTokens(tokens, 0, uri)
    case None => None
    case Some(text) => Some((if uri then [HASH] else []) + text)
  }

  /** In a URI fragment every turn takes one character. */
  lemma {:induction false} UriPrintable(name: bytes, j: nat)
    requires j <= |name|
    ensures PrintName(name, j, true).Some? <==> Writable(AsciiTarget, name, j)
    decreases |name| - j
  {
    if j < |name| {
      var n := NameUnitLength(name, j, true);
      assert n == Strings.UnitLength(AsciiTarget, name, j);
      PrintStep(name, j, true);
      if n != 0 {
        UriPrintable(name, j + n);
      }
    }
  }

  lemma {:induction false} StringPrintable(name: bytes, j: nat)
    requires j <= |name|
    ensures PrintName(name, j, false).Some?
    decreases |name| - j
  {
    if j < |name| {
      PrintStep(name, j, false);
      StringPrintable(name, j + 1);
    }
  }

  /** Every name has a string form; a name has a URI form exactly when it is well-formed. */
  lemma PrintableIs(name: bytes, uri: bool)
    ensures PrintName(name, 0, uri).Some? <==> !uri || Utf8.WellFormed(name)
  {
    if uri {
      UriPrintable(name, 0);
      AsciiWritable(name, 0);
      assert name[0..] == name;
    } else {
      StringPrintable(name, 0);
    }
  }

  // ---------------------------------------------------------------- Reading what was printed

  lemma TripletRead(s: bytes, i: nat, c: byte)
    requires At(s, i, [PERCENT, HexDigit(c / 0x10), HexDigit(c % 0x10)])
    ensures Triplet(s, i) == Some(c)
  {
    var text := [PERCENT, HexDigit(c / 0x10), HexDigit(c % 0x10)];
    AtPeek(s, i, text, 0);
    AtPeek(s, i, text, 1);
    AtPeek(s, i, text, 2);
    HexDigitValue(c / 0x10);
    HexDigitValue(c % 0x10);
  }

  lemma {:induction false} TripletsRead(s: bytes, i: nat, units: bytes)
    requires At(s, i, PercentText(units))
    ensures Triplets(s, i, |units|) == Some(units)
    decreases |units|
  {
    if units != [] {
      var last := |units| - 1;
      var end := [PERCENT, HexDigit(units[last] / 0x10), HexDigit(units[last] % 0x10)];
      AtSplit(s, i, PercentText(units[..last]), end);
      TripletsRead(s, i, units[..last]);
      TripletRead(s, i + 3 * last, units[last]);
      assert units == units[..last] + [units[last]];
    }
  }

  lemma {:induction false} TripletsFirst(s: bytes, i: nat, n: nat)
    requires n > 0 && Triplets(s, i, n).Some?
    ensures Triplet(s, i) == Some(Triplets(s, i, n).value[0])
    decreases n
  {
    if n > 1 {
      TripletsFirst(s, i, n - 1);
    }
  }

  /** A character by itself has the length it has in the middle of a text. */
  lemma CharLengthAlone(name: bytes, j: nat, n: nat)
    requires j < |name| && n == Utf8.CharLength(name, j) != 0
    ensures j + n <= |name| && Utf8.CharLength(name[j..j + n], 0) == n
    ensures n == 1 + Utf8.TailCount(name[j])
  {
    var units := name[j..j + n];
    assert forall k: nat | k < n :: Peek(units, k) == Peek(name, j + k);
    if name[j] >= 0x80 {
      Utf8.TailsMeaning(name, j);
    }
  }

  lemma PercentRead(s: bytes, i: nat, units: bytes)
    requires units != [] && units[0] != TILDE && Utf8.CharLength(units, 0) == |units| == 1 + Utf8.TailCount(units[0])
    requires At(s, i, PercentText(units)) && i < |s|
    ensures PercentDecoded(s, i) == if |units| == 1 then One(units[0], i + 3) else Many(units, i + 3 * |units|)
  {
    TripletsRead(s, i, units);
    TripletsFirst(s, i, |units|);
  }

  lemma {:induction false} PercentStarts(s: bytes, i: nat, units: bytes)
    requires units != [] && At(s, i, PercentText(units))
    ensures i < |s| && s[i] == PERCENT
    decreases |units|
  {
    var last := |units| - 1;
    var end := [PERCENT, HexDigit(units[last] / 0x10), HexDigit(units[last] % 0x10)];
    AtSplit(s, i, PercentText(units[..last]), end);
    if last == 0 {
      AtPeek(s, i, end, 0);
    } else {
      PercentStarts(s, i, units[..last]);
    }
  }

  /** One printed unit is read back in one turn. */
  lemma UnitRead(name: bytes, j: nat, uri: bool, s: bytes, i: nat) returns (n: nat)
    requires j < |name| && NameUnitLength(name, j, uri) != 0 && At(s, i, NameUnitText(name, j, uri))
    ensures n == NameUnitLength(name, j, uri) && i < |s|
    ensures TurnAt(s, i, uri) ==
      if n == 1 then One(name[j], i + |NameUnitText(name, j, uri)|)
      else Many(name[j..j + n], i + |NameUnitText(name, j, uri)|)
  {
    n := NameUnitLength(name, j, uri);
    var text := NameUnitText(name, j, uri);
    if name[j] == TILDE || name[j] == SLASH {
      AtPeek(s, i, text, 0);
      AtPeek(s, i, text, 1);
    } else if uri && NeedPercentEncode(name[j]) {
      var units := name[j..j + n];
      CharLengthAlone(name, j, n);
      PercentStarts(s, i, units);
      PercentRead(s, i, units);
    } else {
      AtPeek(s, i, text, 0);
    }
  }

  lemma NameReadStep(name: bytes, j: nat, uri: bool, s: bytes, i: nat, own: bytes, acc: bytes) returns (n: nat)
    requires j < |name| && NameUnitLength(name, j, uri) != 0 && own == NameUnitText(name, j, uri) && At(s, i, own)
    ensures n == NameUnitLength(name, j, uri) && i + |own| <= |s|
    ensures NameFrom(s, i, uri, acc) == NameFrom(s, i + |own|, uri, acc + name[j..j + n])
  {
    n := UnitRead(name, j, uri, s, i);
    if n == 1 {
      assert name[j..j + 1] == [name[j]];
    }
  }

  /** The first unit of a printed name is read in one turn of `w` characters. */
  lemma NameReadTurn(name: bytes, j: nat, uri: bool, text: bytes, s: bytes, i: nat, acc: bytes)
    returns (n: nat, w: nat, rest: bytes)
    requires j < |name| && PrintName(name, j, uri) == Some(text) && At(s, i, text)
    ensures 0 < n <= |name| - j && PrintName(name, j + n, uri) == Some(rest)
    ensures |text| == w + |rest| && At(s, i + w, rest) && i + w <= |s|
    ensures NameFrom(s, i, uri, acc) == NameFrom(s, i + w, uri, acc + name[j..j + n])
  {
    PrintStep(name, j, uri);
    var own := NameUnitText(name, j, uri);
    rest := PrintName(name, j + NameUnitLength(name, j, uri), uri).value;
    AtSplit(s, i, own, rest);
    n := NameReadStep(name, j, uri, s, i, own, acc);
    w := |own|;
  }

  lemma JoinRest(acc: bytes, name: bytes, j: nat, k: nat)
    requires j <= k <= |name|
    ensures acc + name[j..k] + name[k..] == acc + name[j..]
  {
  }

  /** A printed name is read back as it was, up to the end or the next slash. */
  lemma {:induction false} NameRead(name: bytes, j: nat, uri: bool, text: bytes, s: bytes, i: nat, acc: bytes)
    requires j <= |name| && PrintName(name, j, uri) == Some(text) && At(s, i, text)
    requires Peek(s, i + |text|) == SLASH || i + |text| == |s|
    ensures i + |text| <= |s| && NameFrom(s, i, uri, acc) == Name(acc + name[j..], i + |text|)
    decreases |name| - j
  {
    if j == |name| {
      assert acc + name[j..] == acc;
    } else {
      var n, w, rest := NameReadTurn(name, j, uri, text, s, i, acc);
      NameRead(name, j + n, uri, rest, s, i + w, acc + name[j..j + n]);
      JoinRest(acc, name, j, j + n);
    }
  }

  /** Tokens whose index is the one reading would give their name. */
  ghost predicate Indexed(tokens: seq<Token>) {
    forall k | 0 <= k < |tokens| :: tokens[k].index == IndexOf(tokens[k].name)
  }

  lemma {:induction false} PrintTokensStart(tokens: seq<Token>, k: nat, uri: bool, text: bytes)
    requires k <= |tokens| && PrintTokens(tokens, k, uri) == Some(text)
    ensures if k == |tokens| then text == [] else text != [] && text[0] == SLASH
  {
  }

  lemma TokensSplit(s: bytes, i: nat, own: bytes, rest: bytes)
    requires At(s, i, [SLASH] + own + rest) && i + |[SLASH] + own + rest| == |s|
    ensures i < |s| && s[i] == SLASH && At(s, i + 1, own) && At(s, i + 1 + |own|, rest)
    ensures i + 1 + |own| + |rest| == |s|
  {
    AtSplit3(s, i, [SLASH], own, rest);
    AtPeek(s, i, [SLASH], 0);
  }

  /** Printed tokens are read back as they were. */
  lemma {:induction false} TokensRead(tokens: seq<Token>, k: nat, uri: bool, text: bytes, s: bytes, i: nat)
    requires k <= |tokens| && PrintTokens(tokens, k, uri) == Some(text) && Indexed(tokens)
    requires At(s, i, text) && i + |text| == |s| && (i < |s| ==> s[i] == SLASH)
    ensures TokensFrom(s, i, uri, tokens[..k]) == Tokens(tokens)
    decreases |tokens| - k
  {
    if k == |tokens| {
      assert tokens[..k] == tokens;
    } else {
      var rest, next := TokenRead(tokens, k, uri, text, s, i);
      TokensRead(tokens, k + 1, uri, rest, s, next);
      assert tokens[..k] + [tokens[k]] == tokens[..k + 1];
    }
  }

  /** The first of the printed tokens is read up to `next`. */
  lemma TokenRead(tokens: seq<Token>, k: nat, uri: bool, text: bytes, s: bytes, i: nat)
    returns (rest: bytes, next: nat)
    requires k < |tokens| && PrintTokens(tokens, k, uri) == Some(text)
    requires At(s, i, text) && i + |text| == |s|
    ensures i < |s| && s[i] == SLASH && i < next && next + |rest| == |s|
    ensures PrintTokens(tokens, k + 1, uri) == Some(rest) && At(s, next, rest) && (next < |s| ==> s[next] == SLASH)
    ensures NameFrom(s, i + 1, uri, []) == Name(tokens[k].name, next)
  {
    var own := PrintName(tokens[k].name, 0, uri).value;
    rest := PrintTokens(tokens, k + 1, uri).value;
    TokensSplit(s, i, own, rest);
    PrintTokensStart(tokens, k + 1, uri, rest);
    next := i + 1 + |own|;
    if rest != [] {
      AtPeek(s, next, rest, 0);
    }
    NameRead(tokens[k].name, 0, uri, own, s, i + 1, []);
    assert [] + tokens[k].name[0..] == tokens[k].name;
  }

  /** Reading undoes printing, in the string form for all names and in the URI form for well-formed ones. */
  lemma ParseStringify(tokens: seq<Token>, uri: bool)
    requires Indexed(tokens)
    requires uri ==> forall k | 0 <= k < |tokens| :: Utf8.WellFormed(tokens[k].name)
    ensures Stringify(tokens, uri).Some? && Parse(Stringify(tokens, uri).value) == Tokens(tokens)
  {
    TokensPrintable(tokens, 0, uri);
    var text := PrintTokens(tokens, 0, uri).value;
    var head := if uri then [HASH] else [];
    var s := head + text;
    AtMiddle(head, text, []);
    assert head + text + [] == s;
    PrintTokensStart(tokens, 0, uri, text);
    if text != [] {
      AtPeek(s, |head|, text, 0);
    }
    TokensRead(tokens, 0, uri, text, s, |head|);
    assert tokens[..0] == [];
  }

  lemma {:induction false} TokensPrintable(tokens: seq<Token>, k: nat, uri: bool)
    requires k <= |tokens|
    ensures PrintTokens(tokens, k, uri).Some? <==>
      forall n | k <= n < |tokens| :: !uri || Utf8.WellFormed(tokens[n].name)
    decreases |tokens| - k
  {
    if k < |tokens| {
      PrintableIs(tokens[k].name, uri);
      TokensPrintable(tokens, k + 1, uri);
    }
  }
}
