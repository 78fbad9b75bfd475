/**
 The grammar of JSON pointers, after sections 3 to 6 of RFC 6901 and section 2 of RFC 3986, spelled out in bytes: which
 texts are read, to which tokens, and how names are printed.
 */
module PointerGrammar {
  import opened Bytes
  import opened Strings
  import opened Pointer
  import opened Grammar
  import GrammarLeaves
  import Utf8

  /** Letters, digits, hyphen, full stop, low line and tilde. */
  predicate Unreserved(c: byte) {
    || 0x41 <= c <= 0x5A || 0x61 <= c <= 0x7A || 0x30 <= c <= 0x39
    || c == 0x2D || c == 0x2E || c == 0x5F || c == 0x7E
  }

  /** The escapes of the tilde and of the solidus. */
  const ESCAPES: seq<(byte, byte)> := [(0x30, 0x7E), (0x31, 0x2F)]

  /** Each unit is spelled by a percent sign and two digits, in either case. */
  ghost predicate PercentAt(s: bytes, i: nat, units: bytes)
    decreases |units|, 1
  {
    units == [] || PercentBegins(s, i, units)
  }

  ghost predicate PercentBegins(s: bytes, i: nat, units: bytes)
    requires units != []
    decreases |units|, 0
  {
    TripletAt(s, i, units[0]) && PercentAt(s, i + 3, units[1..])
  }

  ghost predicate TripletAt(s: bytes, i: nat, c: byte) {
    i + 3 <= |s| && s[i] == 0x25 && Spells(s[i + 1], c / 16) && Spells(s[i + 2], c % 16)
  }

  /** A part of a name: a byte for itself, a percent-encoded character, or an escape with its tilde encoded or not. */
  datatype Part =
    | Plain(c: byte)
    | Percent(cp: int)
    | Escape(encoded: bool, letter: byte, stands: byte)

  ghost predicate PartAt(s: bytes, i: nat, uri: bool, part: Part) {
    match part
    case Plain(c) => i < |s| && s[i] == c && c != 0x2F && c != 0x7E && (uri ==> Unreserved(c))
    case Percent(cp) => uri && Utf8.IsScalar(cp) && cp != 0x7E && PercentAt(s, i, Utf8.Encode(cp))
    case Escape(encoded, letter, stands) =>
      && (if encoded then uri && PercentAt(s, i, [0x7E]) else i < |s| && s[i] == 0x7E)
      && Follows(s, i + (if encoded then 3 else 1), letter) && (letter, stands) in ESCAPES
  }

  ghost predicate Follows(s: bytes, i: nat, c: byte) {
    i < |s| && s[i] == c
  }

  ghost function Width(part: Part): nat {
    match part
    case Plain(_) => 1
    case Percent(cp) => if Utf8.IsScalar(cp) then 3 * |Utf8.Encode(cp)| else 0
    case Escape(encoded, _, _) => if encoded then 4 else 2
  }

  /** The bytes a part stands for. */
  ghost function PartBytes(part: Part): bytes {
    match part
    case Plain(c) => [c]
    case Percent(cp) => if Utf8.IsScalar(cp) then Utf8.Encode(cp) else []
    case Escape(_, _, stands) => [stands]
  }

  lemma ReservedIs(c: byte)
    ensures NeedPercentEncode(c) <==> !Unreserved(c)
  {
  }

  // ---------------------------------------------------------------- Percent encoding

  lemma TripletIs(s: bytes, i: nat, c: byte)
    ensures Triplet(s, i) == Some(c) <==> TripletAt(s, i, c)
  {
    if i + 3 <= |s| {
      GrammarLeaves.HexSpelled(s[i + 1]);
      GrammarLeaves.HexSpelled(s[i + 2]);
    }
  }

  lemma {:induction false} PercentLast(s: bytes, i: nat, units: bytes)
    requires units != []
    ensures var last := |units| - 1;
      PercentAt(s, i, units) <==> PercentAt(s, i, units[..last]) && TripletAt(s, i + 3 * last, units[last])
    decreases |units|
  {
    var last := |units| - 1;
    if last > 0 {
      PercentLast(s, i + 3, units[1..]);
      assert units[1..][..last - 1] == units[..last][1..] && units[..last][0] == units[0];
      assert PercentBegins(s, i, units) <==> TripletAt(s, i, units[0]) && PercentAt(s, i + 3, units[1..]);
      assert PercentAt(s, i, units[..last]) <==> PercentBegins(s, i, units[..last]);
    } else {
      assert PercentBegins(s, i, units) <==> TripletAt(s, i, units[0]);
    }
  }

  lemma {:induction false} TripletsAre(s: bytes, i: nat, n: nat, units: bytes)
    requires |units| == n
    ensures Triplets(s, i, n) == Some(units) <==> PercentAt(s, i, units)
    decreases n
  {
    if n > 0 {
      var b, c := units[..n - 1], units[n - 1];
      assert units == b + [c];
      TripletsAre(s, i, n - 1, b);
      TripletIs(s, i + 3 * (n - 1), c);
      PercentLast(s, i, units);
    }
  }

  /** A percent-encoded byte by itself. */
  lemma OneUnit(s: bytes, i: nat, c: byte)
    ensures PercentAt(s, i, [c]) <==> TripletAt(s, i, c)
  {
    assert [c][1..] == [];
    assert PercentBegins(s, i, [c]) <==> TripletAt(s, i, c);
  }

  /** The code units that follow a percent sign are those of the encoded character. */
  lemma UnitsRead(s: bytes, i: nat, cp: int)
    requires Utf8.IsScalar(cp) && PercentAt(s, i, Utf8.Encode(cp))
    ensures PercentUnits(s, i) == Some(Utf8.Encode(cp))
  {
    var units := Utf8.Encode(cp);
    assert PercentBegins(s, i, units);
    TripletIs(s, i, units[0]);
    TripletsAre(s, i, |units|, units);
    Alone(cp);
  }

  lemma Alone(cp: int)
    requires Utf8.IsScalar(cp)
    ensures var units := Utf8.Encode(cp); Utf8.CharLength(units, 0) == |units| == 1 + Utf8.TailCount(units[0])
    ensures Utf8.CharValue(Utf8.Encode(cp), 0) == cp
  {
    var units := Utf8.Encode(cp);
    AtMiddle([], units, []);
    assert [] + units + [] == units;
    Utf8.DecodeEncode(units, 0, cp);
    CharLengthAlone(units, 0, |units|);
  }

  lemma UnitsFound(s: bytes, i: nat) returns (cp: int)
    requires PercentUnits(s, i).Some?
    ensures Utf8.IsScalar(cp) && PercentUnits(s, i) == Some(Utf8.Encode(cp)) && PercentAt(s, i, Utf8.Encode(cp))
  {
    var units := PercentUnits(s, i).value;
    cp := Utf8.CharValue(units, 0);
    Utf8.EncodeDecode(units, 0);
    assert units[0..|units|] == units;
    TripletsAre(s, i, |units|, units);
  }

  lemma SevenBits(cp: int)
    requires Utf8.IsScalar(cp)
    ensures |Utf8.Encode(cp)| == 1 ==> Utf8.Encode(cp) == [cp] && cp < 0x80
    ensures cp < 0x80 ==> Utf8.Encode(cp) == [cp]
  {
  }

  // ---------------------------------------------------------------- Names

  /** The bytes that a turn adds to the name, and where it ends. */
  ghost predicate Adds(turn: Turn, b: bytes, next: nat) {
    (|b| == 1 && turn == One(b[0], next)) || turn == Many(b, next)
  }

  lemma EscapeIs(s: bytes, i: nat, letter: byte, stands: byte)
    requires i <= |s| && Follows(s, i, letter) && (letter, stands) in ESCAPES
    ensures Unescaped(s, 0x7E, i) == One(stands, i + 1)
  {
  }

  /** A part of a name is read in one turn to the bytes it stands for. */
  lemma PartRead(s: bytes, i: nat, uri: bool, part: Part)
    requires PartAt(s, i, uri, part)
    ensures i <= |s| && Adds(TurnAt(s, i, uri), PartBytes(part), i + Width(part))
  {
    match part
    case Plain(c) => ReservedIs(c);
    case Percent(cp) => PercentIs(s, i, cp);
    case Escape(encoded, letter, stands) =>
      if encoded {
        assert Utf8.Encode(0x7E) == [0x7E];
        OneUnit(s, i, 0x7E);
        UnitsRead(s, i, 0x7E);
        EscapeIs(s, i + 3, letter, stands);
      } else {
        EscapeIs(s, i + 1, letter, stands);
      }
  }

  lemma PercentIs(s: bytes, i: nat, cp: int)
    requires Utf8.IsScalar(cp) && cp != 0x7E && PercentAt(s, i, Utf8.Encode(cp))
    ensures i < |s| && Adds(TurnAt(s, i, true), Utf8.Encode(cp), i + 3 * |Utf8.Encode(cp)|)
  {
    var units := Utf8.Encode(cp);
    assert PercentBegins(s, i, units);
    UnitsRead(s, i, cp);
    SevenBits(cp);
  }

  /** What an escape's second letter stands for. */
  ghost function Stands(letter: byte): byte {
    if letter == 0x30 then 0x7E else 0x2F
  }

  lemma EscapeFound(s: bytes, i: nat)
    requires i <= |s| && Unescaped(s, 0x7E, i).One?
    ensures i < |s| && (s[i], Stands(s[i])) in ESCAPES
  {
    assert ESCAPES[0] == (0x30, 0x7E) && ESCAPES[1] == (0x31, 0x2F);
  }

  lemma EncodedFound(s: bytes, i: nat) returns (part: Part)
    requires i < |s| && s[i] == 0x25 && (PercentDecoded(s, i).One? || PercentDecoded(s, i).Many?)
    ensures PartAt(s, i, true, part)
  {
    var cp := UnitsFound(s, i);
    SevenBits(cp);
    if cp == 0x7E {
      EscapeFound(s, i + 3);
      part := Escape(true, s[i + 3], Stands(s[i + 3]));
    } else {
      part := Percent(cp);
    }
  }

  lemma PartFound(s: bytes, i: nat, uri: bool) returns (part: Part)
    requires i <= |s| && (TurnAt(s, i, uri).One? || TurnAt(s, i, uri).Many?)
    ensures PartAt(s, i, uri, part)
  {
    if uri && s[i] == 0x25 {
      part := EncodedFound(s, i);
    } else if s[i] == 0x7E {
      EscapeFound(s, i + 1);
      part := Escape(false, s[i + 1], Stands(s[i + 1]));
    } else {
      part := Plain(s[i]);
      ReservedIs(s[i]);
    }
  }

  ghost predicate PartsAt(s: bytes, i: nat, uri: bool, parts: seq<Part>)
    decreases |parts|, 1
  {
    parts == [] || PartsBegin(s, i, uri, parts)
  }

  ghost predicate PartsBegin(s: bytes, i: nat, uri: bool, parts: seq<Part>)
    requires parts != []
    decreases |parts|, 0
  {
    PartAt(s, i, uri, parts[0]) && PartsAt(s, i + Width(parts[0]), uri, parts[1..])
  }

  ghost function NameLength(parts: seq<Part>): nat {
    if parts == [] then 0 else Width(parts[0]) + NameLength(parts[1..])
  }

  /** The name that the parts spell. */
  ghost function NameBytes(parts: seq<Part>): bytes {
    if parts == [] then [] else PartBytes(parts[0]) + NameBytes(parts[1..])
  }

  /** A name ends with the text, or where the next token begins. */
  ghost predicate EndsAt(s: bytes, i: nat) {
    i == |s| || Follows(s, i, 0x2F)
  }

  lemma TurnTaken(s: bytes, i: nat, uri: bool, part: Part, name: bytes)
    requires PartAt(s, i, uri, part)
    ensures i < i + Width(part) <= |s|
    ensures NameFrom(s, i, uri, name) == NameFrom(s, i + Width(part), uri, name + PartBytes(part))
  {
    PartRead(s, i, uri, part);
    var b := PartBytes(part);
    assert |b| == 1 ==> b == [b[0]];
  }

  lemma FirstTaken(s: bytes, i: nat, uri: bool, parts: seq<Part>, before: bytes) returns (n: nat, b: bytes)
    requires parts != [] && PartsAt(s, i, uri, parts)
    ensures n == Width(parts[0]) > 0 && i + n <= |s| && PartsAt(s, i + n, uri, parts[1..]) && b == PartBytes(parts[0])
    ensures NameFrom(s, i, uri, before) == NameFrom(s, i + n, uri, before + b)
  {
    n, b := Width(parts[0]), PartBytes(parts[0]);
    TurnTaken(s, i, uri, parts[0], before);
  }

  lemma FirstAlone(parts: seq<Part>, before: bytes, name: bytes, n: nat, b: bytes)
    requires parts != [] && n == Width(parts[0]) && b == PartBytes(parts[0]) && name == before + NameBytes(parts)
    ensures name == (before + b) + NameBytes(parts[1..]) && NameLength(parts) == n + NameLength(parts[1..])
  {
  }

  lemma FirstPart(s: bytes, i: nat, uri: bool, parts: seq<Part>, before: bytes, name: bytes, end: nat)
      returns (next: nat, taken: bytes)
    requires parts != [] && PartsAt(s, i, uri, parts) && name == before + NameBytes(parts)
    requires end == i + NameLength(parts)
    ensures next <= |s| && PartsAt(s, next, uri, parts[1..]) && end == next + NameLength(parts[1..])
    ensures NameFrom(s, i, uri, before) == NameFrom(s, next, uri, taken)
    ensures name == taken + NameBytes(parts[1..])
  {
    var n, b := FirstTaken(s, i, uri, parts, before);
    FirstAlone(parts, before, name, n, b);
    next, taken := i + n, before + b;
  }

  lemma NoParts(parts: seq<Part>, i: nat, before: bytes, name: bytes, end: nat)
    requires parts == [] && name == before + NameBytes(parts) && end == i + NameLength(parts)
    ensures name == before && end == i
  {
  }

  lemma EndTaken(s: bytes, i: nat, uri: bool, before: bytes)
    requires i <= |s| && EndsAt(s, i)
    ensures NameFrom(s, i, uri, before) == Name(before, i)
  {
  }

  /** A name of the grammar is read as what its parts spell. */
  lemma {:induction false} PartsRead(
      s: bytes, i: nat, uri: bool, parts: seq<Part>, before: bytes, name: bytes, end: nat)
    requires i <= |s| && PartsAt(s, i, uri, parts) && end == i + NameLength(parts) && EndsAt(s, end)
    requires name == before + NameBytes(parts)
    ensures NameFrom(s, i, uri, before) == Name(name, end)
    decreases |parts|
  {
    if parts == [] {
      NoParts(parts, i, before, name, end);
      EndTaken(s, i, uri, before);
    } else {
      var next, taken := FirstPart(s, i, uri, parts, before, name, end);
      PartsRead(s, next, uri, parts[1..], taken, name, end);
    }
  }

  lemma PartsAnd(s: bytes, i: nat, uri: bool, part: Part, rest: seq<Part>, parts: seq<Part>)
    requires parts == [part] + rest && PartAt(s, i, uri, part) && PartsAt(s, i + Width(part), uri, rest)
    ensures PartsAt(s, i, uri, parts) && NameLength(parts) == Width(part) + NameLength(rest)
  {
    assert parts[1..] == rest && PartsBegin(s, i, uri, parts);
  }

  lemma PartTaken(s: bytes, i: nat, uri: bool, before: bytes) returns (part: Part, next: nat, taken: bytes)
    requires i <= |s| && (TurnAt(s, i, uri).One? || TurnAt(s, i, uri).Many?)
    ensures PartAt(s, i, uri, part) && next == i + Width(part) && i < next <= |s|
    ensures NameFrom(s, i, uri, before) == NameFrom(s, next, uri, taken)
  {
    part := PartFound(s, i, uri);
    next, taken := i + Width(part), before + PartBytes(part);
    TurnTaken(s, i, uri, part, before);
  }

  /** A name that is read ends here, or has one more part. */
  lemma EndOrPart(s: bytes, i: nat, uri: bool, before: bytes) returns (part: Option<Part>, next: nat, taken: bytes)
    requires i <= |s| && NameFrom(s, i, uri, before).Name?
    ensures part.None? ==> EndsAt(s, i) && NameFrom(s, i, uri, before).next == i
    ensures part.Some? ==> PartAt(s, i, uri, part.value) && next == i + Width(part.value) && i < next <= |s|
    ensures part.Some? ==> NameFrom(s, i, uri, before) == NameFrom(s, next, uri, taken)
  {
    part, next, taken := None, i, before;
    if !TurnAt(s, i, uri).NameEnd? {
      var p;
      p, next, taken := PartTaken(s, i, uri, before);
      part := Some(p);
    }
  }

  /** What is read is a name of the grammar. */
  lemma {:induction false} PartsFound(s: bytes, i: nat, uri: bool, before: bytes) returns (parts: seq<Part>)
    requires i <= |s| && NameFrom(s, i, uri, before).Name?
    ensures PartsAt(s, i, uri, parts) && NameFrom(s, i, uri, before).next == i + NameLength(parts)
    ensures EndsAt(s, i + NameLength(parts))
    decreases |s| - i
  {
    var part, next, taken := EndOrPart(s, i, uri, before);
    if part.None? {
      parts := [];
    } else {
      var rest := PartsFound(s, next, uri, taken);
      parts := [part.value] + rest;
      PartsAnd(s, i, uri, part.value, rest, parts);
    }
  }

  // ---------------------------------------------------------------- Names that are refused

  /** What stands at `i` is neither a part of a name nor its end, for the reason that the code gives. */
  ghost predicate NameBreaks(s: bytes, i: nat, uri: bool, code: Pointer.ErrorCode, offset: nat) {
    match code
    case InvalidEscape =>
      && ((offset == i + 1 && Follows(s, i, 0x7E)) || (offset == i + 3 && uri && TripletAt(s, i, 0x7E)))
      && !Follows(s, offset, 0x30) && !Follows(s, offset, 0x31)
    case InvalidPercentEncoding =>
      offset == i && uri && Follows(s, i, 0x25) && forall cp | Utf8.IsScalar(cp) :: !PercentAt(s, i, Utf8.Encode(cp))
    case CharacterMustPercentEncode =>
      offset == i && uri && i < |s| && s[i] != 0x25 && s[i] != 0x2F && !Unreserved(s[i])
    case _ => false
  }

  lemma UnitsMissing(s: bytes, i: nat)
    ensures PercentUnits(s, i).None? <==> forall cp | Utf8.IsScalar(cp) :: !PercentAt(s, i, Utf8.Encode(cp))
  {
    if PercentUnits(s, i).Some? {
      var cp := UnitsFound(s, i);
    }
    forall cp | Utf8.IsScalar(cp) && PercentAt(s, i, Utf8.Encode(cp)) ensures PercentUnits(s, i).Some? {
      UnitsRead(s, i, cp);
    }
  }

  lemma TildeEncoded(s: bytes, i: nat)
    ensures PercentUnits(s, i) == Some([0x7E]) <==> TripletAt(s, i, 0x7E)
  {
    assert Utf8.Encode(0x7E) == [0x7E];
    TripletIs(s, i, 0x7E);
    OneUnit(s, i, 0x7E);
    if TripletAt(s, i, 0x7E) {
      UnitsRead(s, i, 0x7E);
    }
  }

  /** A percent-encoded character that is refused is a tilde that no escape continues. */
  lemma UnitsRefused(s: bytes, i: nat, units: bytes, code: Pointer.ErrorCode, offset: nat)
    requires i < |s| && PercentUnits(s, i) == Some(units)
    ensures PercentDecoded(s, i) == Refused(code, offset) <==>
      units == [0x7E] && code == InvalidEscape && offset == i + 3
      && !Follows(s, offset, 0x30) && !Follows(s, offset, 0x31)
  {
    assert |units| == 1 ==> units == [units[0]];
  }

  lemma PercentBreaks(s: bytes, i: nat, code: Pointer.ErrorCode, offset: nat)
    requires i < |s| && s[i] == 0x25
    ensures PercentDecoded(s, i) == Refused(code, offset) <==> NameBreaks(s, i, true, code, offset)
  {
    UnitsMissing(s, i);
    TildeEncoded(s, i);
    if PercentUnits(s, i).Some? {
      UnitsRefused(s, i, PercentUnits(s, i).value, code, offset);
    }
  }

  /** One turn of the loop over a name fails exactly where the name breaks off, with that code. */
  lemma TurnBreaks(s: bytes, i: nat, uri: bool, code: Pointer.ErrorCode, offset: nat)
    requires i <= |s|
    ensures TurnAt(s, i, uri) == Refused(code, offset) <==> NameBreaks(s, i, uri, code, offset)
  {
    if i < |s| {
      ReservedIs(s[i]);
      if uri && s[i] == 0x25 {
        PercentBreaks(s, i, code, offset);
      }
    }
  }

  /** Parts in order up to `at`, where the name breaks off. */
  ghost predicate BreaksAfter(
      s: bytes, i: nat, uri: bool, parts: seq<Part>, at: nat, code: Pointer.ErrorCode, offset: nat)
  {
    PartsAt(s, i, uri, parts) && at == i + NameLength(parts) && NameBreaks(s, at, uri, code, offset)
  }

  lemma BreaksOn(
      s: bytes, i: nat, uri: bool, parts: seq<Part>, at: nat, code: Pointer.ErrorCode, offset: nat, before: bytes)
      returns (n: nat, b: bytes)
    requires parts != [] && BreaksAfter(s, i, uri, parts, at, code, offset)
    ensures n > 0 && i + n <= |s| && BreaksAfter(s, i + n, uri, parts[1..], at, code, offset)
    ensures NameFrom(s, i, uri, before) == NameFrom(s, i + n, uri, before + b)
  {
    n, b := FirstTaken(s, i, uri, parts, before);
    FirstAlone(parts, before, before + NameBytes(parts), n, b);
  }

  lemma BreaksNow(s: bytes, i: nat, uri: bool, before: bytes, code: Pointer.ErrorCode, offset: nat)
    requires i <= |s|
    ensures TurnAt(s, i, uri).Refused? || NameBreaks(s, i, uri, code, offset) ==>
      (NameFrom(s, i, uri, before) == NoName(code, offset) <==> NameBreaks(s, i, uri, code, offset))
  {
    TurnBreaks(s, i, uri, code, offset);
  }

  /** A name that breaks off is refused there. */
  lemma {:induction false} NameRefused(
      s: bytes, i: nat, uri: bool, parts: seq<Part>, at: nat, before: bytes, code: Pointer.ErrorCode, offset: nat)
    requires i <= |s| && BreaksAfter(s, i, uri, parts, at, code, offset)
    ensures NameFrom(s, i, uri, before) == NoName(code, offset)
    decreases |parts|
  {
    if parts == [] {
      BreaksNow(s, i, uri, before, code, offset);
    } else {
      var n, b := BreaksOn(s, i, uri, parts, at, code, offset, before);
      NameRefused(s, i + n, uri, parts[1..], at, before + b, code, offset);
    }
  }

  lemma BreaksHere(s: bytes, i: nat, uri: bool, before: bytes, code: Pointer.ErrorCode, offset: nat)
    requires i <= |s| && TurnAt(s, i, uri).Refused? && NameFrom(s, i, uri, before) == NoName(code, offset)
    ensures BreaksAfter(s, i, uri, [], i, code, offset)
  {
    BreaksNow(s, i, uri, before, code, offset);
  }

  lemma TurnGoesOn(s: bytes, i: nat, uri: bool, before: bytes)
    requires i <= |s| && NameFrom(s, i, uri, before).NoName? && !TurnAt(s, i, uri).Refused?
    ensures TurnAt(s, i, uri).One? || TurnAt(s, i, uri).Many?
  {
  }

  lemma BreaksLater(
      s: bytes, i: nat, uri: bool, part: Part, rest: seq<Part>, parts: seq<Part>, at: nat, code: Pointer.ErrorCode,
      offset: nat)
    requires parts == [part] + rest && PartAt(s, i, uri, part)
    requires BreaksAfter(s, i + Width(part), uri, rest, at, code, offset)
    ensures BreaksAfter(s, i, uri, parts, at, code, offset)
  {
    PartsAnd(s, i, uri, part, rest, parts);
  }

  /** What is refused is a name that breaks off. */
  lemma {:induction false} RefusedBreaks(
      s: bytes, i: nat, uri: bool, before: bytes, code: Pointer.ErrorCode, offset: nat)
      returns (parts: seq<Part>, at: nat)
    requires i <= |s| && NameFrom(s, i, uri, before) == NoName(code, offset)
    ensures BreaksAfter(s, i, uri, parts, at, code, offset)
    decreases |s| - i
  {
    if TurnAt(s, i, uri).Refused? {
      BreaksHere(s, i, uri, before, code, offset);
      parts, at := [], i;
    } else {
      TurnGoesOn(s, i, uri, before);
      var part, next, taken := PartTaken(s, i, uri, before);
      var rest;
      rest, at := RefusedBreaks(s, next, uri, taken, code, offset);
      parts := [part] + rest;
      BreaksLater(s, i, uri, part, rest, parts, at, code, offset);
    }
  }

  // ---------------------------------------------------------------- Texts

  /** Each token has a solidus and a name. */
  ghost predicate NamesAt(s: bytes, i: nat, uri: bool, names: seq<seq<Part>>)
    decreases |names|
  {
    if names == [] then i == |s|
    else
      && Follows(s, i, 0x2F) && PartsAt(s, i + 1, uri, names[0])
      && NamesAt(s, i + 1 + NameLength(names[0]), uri, names[1..])
  }

  ghost function TokenOf(parts: seq<Part>): Token {
    Token(NameBytes(parts), IndexOf(NameBytes(parts)))
  }

  /** The tokens of the names, each with its index. */
  ghost function TokensOf(names: seq<seq<Part>>): seq<Token> {
    if names == [] then [] else [TokenOf(names[0])] + TokensOf(names[1..])
  }

  /** The text is a pointer, as a URI fragment when it begins with `#`. */
  ghost predicate PointerAt(s: bytes, names: seq<seq<Part>>) {
    if Follows(s, 0, 0x23) then NamesAt(s, 1, true, names) else NamesAt(s, 0, false, names)
  }

  lemma NameTaken(s: bytes, i: nat, uri: bool, parts: seq<Part>, next: nat)
    requires i <= |s| && PartsAt(s, i, uri, parts) && next == i + NameLength(parts) && EndsAt(s, next)
    ensures NameFrom(s, i, uri, []) == Name(NameBytes(parts), next)
  {
    assert [] + NameBytes(parts) == NameBytes(parts);
    PartsRead(s, i, uri, parts, [], NameBytes(parts), next);
  }

  /** A token is added, and reading goes on where its name ends. */
  ghost predicate GoesOn(s: bytes, i: nat, uri: bool, before: seq<Token>, next: nat, token: Token)
    requires i < |s| && s[i] == SLASH
  {
    && i < next <= |s| && (next < |s| ==> s[next] == SLASH)
    && TokensFrom(s, i, uri, before) == TokensFrom(s, next, uri, before + [token])
  }

  lemma TokenTaken(s: bytes, i: nat, uri: bool, before: seq<Token>, name: bytes, next: nat)
    requires i < |s| && s[i] == SLASH && NameFrom(s, i + 1, uri, []) == Name(name, next)
    ensures GoesOn(s, i, uri, before, next, Token(name, IndexOf(name)))
  {
  }

  lemma FirstName(s: bytes, i: nat, uri: bool, parts: seq<Part>, before: seq<Token>, next: nat)
    requires Follows(s, i, 0x2F) && PartsAt(s, i + 1, uri, parts)
    requires next == i + 1 + NameLength(parts) && EndsAt(s, next)
    ensures s[i] == SLASH && GoesOn(s, i, uri, before, next, TokenOf(parts))
  {
    NameTaken(s, i + 1, uri, parts, next);
    TokenTaken(s, i, uri, before, NameBytes(parts), next);
  }

  lemma {:induction false} NamesRead(
      s: bytes, i: nat, uri: bool, names: seq<seq<Part>>, before: seq<Token>, tokens: seq<Token>)
    requires i <= |s| && NamesAt(s, i, uri, names) && tokens == before + TokensOf(names)
    ensures (i < |s| ==> s[i] == SLASH) && TokensFrom(s, i, uri, before) == Tokens(tokens)
    decreases |names|
  {
    if names == [] {
      assert tokens == before;
    } else {
      var next, token := i + 1 + NameLength(names[0]), TokenOf(names[0]);
      assert NamesAt(s, next, uri, names[1..]) && EndsAt(s, next);
      FirstName(s, i, uri, names[0], before, next);
      assert tokens == (before + [token]) + TokensOf(names[1..]);
      NamesRead(s, next, uri, names[1..], before + [token], tokens);
    }
  }

  lemma {:induction false} NamesFound(s: bytes, i: nat, uri: bool, before: seq<Token>) returns (names: seq<seq<Part>>)
    requires i <= |s| && (i < |s| ==> s[i] == SLASH) && TokensFrom(s, i, uri, before).Tokens?
    ensures NamesAt(s, i, uri, names)
    decreases |s| - i
  {
    if i == |s| {
      names := [];
    } else {
      var parts := PartsFound(s, i + 1, uri, []);
      var n := NameFrom(s, i + 1, uri, []);
      var rest := NamesFound(s, n.next, uri, before + [Token(n.name, IndexOf(n.name))]);
      names := [parts] + rest;
      assert names[1..] == rest;
    }
  }

  /** A text of the grammar is read as the tokens that its names spell, and only such a text is read. */
  lemma ParsesExactly(s: bytes, names: seq<seq<Part>>, tokens: seq<Token>)
    ensures PointerAt(s, names) ==> Parse(s) == Tokens(TokensOf(names))
    ensures Parse(s) == Tokens(tokens) ==> exists found :: PointerAt(s, found) && tokens == TokensOf(found)
  {
    var uri := Follows(s, 0, 0x23);
    var i := if uri then 1 else 0;
    if PointerAt(s, names) {
      assert [] + TokensOf(names) == TokensOf(names);
      NamesRead(s, i, uri, names, [], TokensOf(names));
    }
    if Parse(s) == Tokens(tokens) {
      var found := NamesFound(s, i, uri, []);
      assert [] + TokensOf(found) == TokensOf(found);
      NamesRead(s, i, uri, found, [], TokensOf(found));
      assert PointerAt(s, found);
    }
  }

  ghost predicate BreaksOff(s: bytes, i: nat, uri: bool, code: Pointer.ErrorCode, offset: nat) {
    exists parts, at :: BreaksAfter(s, i, uri, parts, at, code, offset)
  }

  /** Names in order, and then one that breaks off. */
  ghost predicate NamesBreak(
      s: bytes, i: nat, uri: bool, names: seq<seq<Part>>, code: Pointer.ErrorCode, offset: nat)
    decreases |names|
  {
    && Follows(s, i, 0x2F)
    && if names == [] then BreaksOff(s, i + 1, uri, code, offset)
       else
         && PartsAt(s, i + 1, uri, names[0])
         && NamesBreak(s, i + 1 + NameLength(names[0]), uri, names[1..], code, offset)
  }

  lemma {:induction false} NamesRefused(
      s: bytes, i: nat, uri: bool, names: seq<seq<Part>>, before: seq<Token>, code: Pointer.ErrorCode, offset: nat)
    requires i < |s| && NamesBreak(s, i, uri, names, code, offset)
    ensures s[i] == SLASH && TokensFrom(s, i, uri, before) == Error(code, offset)
    decreases |names|
  {
    if names == [] {
      var parts, at :| BreaksAfter(s, i + 1, uri, parts, at, code, offset);
      NameRefused(s, i + 1, uri, parts, at, [], code, offset);
    } else {
      var next := i + 1 + NameLength(names[0]);
      assert Follows(s, next, 0x2F) && EndsAt(s, next);
      FirstName(s, i, uri, names[0], before, next);
      NamesRefused(s, next, uri, names[1..], before + [TokenOf(names[0])], code, offset);
    }
  }

  lemma {:induction false} RefusedNames(
      s: bytes, i: nat, uri: bool, before: seq<Token>, code: Pointer.ErrorCode, offset: nat)
      returns (names: seq<seq<Part>>)
    requires i <= |s| && (i < |s| ==> s[i] == SLASH) && TokensFrom(s, i, uri, before) == Error(code, offset)
    ensures NamesBreak(s, i, uri, names, code, offset)
    decreases |s| - i
  {
    var n := NameFrom(s, i + 1, uri, []);
    if n.NoName? {
      var parts, at := RefusedBreaks(s, i + 1, uri, [], code, offset);
      names := [];
    } else {
      var parts := PartsFound(s, i + 1, uri, []);
      var rest := RefusedNames(s, n.next, uri, before + [Token(n.name, IndexOf(n.name))], code, offset);
      names := [parts] + rest;
      assert names[1..] == rest;
    }
  }

  /**
   Any other text is refused: at once when it does not begin with a solidus, and otherwise where its first name that
   is not in order breaks off.
   */
  lemma RefusesExactly(s: bytes, names: seq<seq<Part>>, code: Pointer.ErrorCode, offset: nat)
    ensures var uri := Follows(s, 0, 0x23);
      var i := if uri then 1 else 0;
      if i < |s| && s[i] != 0x2F then Parse(s) == Error(TokenMustBeginWithSolidus, i)
      else
        && (NamesBreak(s, i, uri, names, code, offset) ==> Parse(s) == Error(code, offset))
        && (Parse(s) == Error(code, offset) ==> exists found :: NamesBreak(s, i, uri, found, code, offset))
  {
    var uri := Follows(s, 0, 0x23);
    var i := if uri then 1 else 0;
    if i == |s| || s[i] == 0x2F {
      if NamesBreak(s, i, uri, names, code, offset) {
        NamesRefused(s, i, uri, names, [], code, offset);
      }
      if Parse(s) == Error(code, offset) {
        var found := RefusedNames(s, i, uri, [], code, offset);
      }
    }
  }

  // ---------------------------------------------------------------- Indices

  /** An index is zero, or digits of which the first is no zero. */
  lemma NumericIs(name: bytes)
    ensures Numeric(name) <==>
      || name == [0x30]
      || (name != [] && 0x31 <= name[0] <= 0x39 && forall i | 0 <= i < |name| :: 0x30 <= name[i] <= 0x39)
  {
  }

  // ---------------------------------------------------------------- Printing

  /**
   A tilde and a solidus are printed by their escapes. Other bytes stand for themselves in the string form; in the URI
   form that holds of the unreserved ones, and other characters are percent-encoded with digits in upper case.
   */
  lemma UnitPrinted(name: bytes, j: nat, uri: bool)
    requires j < |name| && NameUnitLength(name, j, uri) != 0
    ensures
      var text, n := NameUnitText(name, j, uri), NameUnitLength(name, j, uri);
      if name[j] == 0x7E then n == 1 && text == [0x7E, 0x30]
      else if name[j] == 0x2F then n == 1 && text == [0x7E, 0x31]
      else if !uri || Unreserved(name[j]) then n == 1 && text == [name[j]]
      else n == Utf8.CharLength(name, j) && IsPercentText(text, name[j..j + n])
  {
    ReservedIs(name[j]);
    PercentTextIs(name[j..j + NameUnitLength(name, j, uri)]);
  }

  ghost predicate IsPercentText(text: bytes, units: bytes) {
    |text| == 3 * |units| && forall k | 0 <= k < |units| :: IsTriplet(text, 3 * k, units[k])
  }

  ghost predicate IsTriplet(text: bytes, i: nat, c: byte) {
    i + 3 <= |text| && text[i] == 0x25 && text[i + 1] == UPPER[c / 16] && text[i + 2] == UPPER[c % 16]
  }

  lemma {:induction false} PercentTextIs(units: bytes)
    ensures IsPercentText(PercentText(units), units)
    decreases |units|
  {
    if units != [] {
      var last := |units| - 1;
      PercentTextIs(units[..last]);
      var before, text := PercentText(units[..last]), PercentText(units);
      forall k | 0 <= k < last ensures IsTriplet(text, 3 * k, units[k]) {
        assert IsTriplet(before, 3 * k, units[..last][k]);
      }
    }
  }
}
