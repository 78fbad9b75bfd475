/**
 The pointer's own parser: one buffer, as long as the source, takes the names of all tokens. No write leaves the
 buffer, on any input, and the result is the specification's.
 */
module PointerParser {
  import opened Bytes
  import opened Numbers
  import opened Strings
  import opened Pointer
  import Utf8

  /** A token in the buffer: its name begins at `start` and ends before a terminator. */
  datatype Slot = Slot(start: nat, length: nat, index: nat)

  ghost predicate HoldsOne(mem: bytes, slot: Slot, token: Token, limit: nat) {
    && slot.start + slot.length < limit <= |mem|
    && mem[slot.start..slot.start + slot.length] == token.name
    && mem[slot.start + slot.length] == 0
    && slot.index == token.index
  }

  /** The buffer below `limit` holds the tokens. */
  ghost predicate Holds(mem: bytes, slots: seq<Slot>, tokens: seq<Token>, limit: nat) {
    |slots| == |tokens| && forall k | 0 <= k < |slots| :: HoldsOne(mem, slots[k], tokens[k], limit)
  }

  lemma HoldsKept(mem: bytes, mem': bytes, slots: seq<Slot>, tokens: seq<Token>, limit: nat)
    requires Holds(mem, slots, tokens, limit) && |mem| == |mem'| && limit <= |mem|
    requires forall k | 0 <= k < limit :: mem[k] == mem'[k]
    ensures Holds(mem', slots, tokens, limit)
  {
    forall k | 0 <= k < |slots|
      ensures HoldsOne(mem', slots[k], tokens[k], limit)
    {
      assert HoldsOne(mem, slots[k], tokens[k], limit);
      var a, b := slots[k].start, slots[k].start + slots[k].length;
      assert mem[a..b] == mem'[a..b];
    }
  }

  lemma HoldsMore(mem: bytes, slots: seq<Slot>, tokens: seq<Token>, limit: nat, slot: Slot, token: Token, limit': nat)
    requires Holds(mem, slots, tokens, limit) && limit <= limit' <= |mem| && HoldsOne(mem, slot, token, limit')
    ensures Holds(mem, slots + [slot], tokens + [token], limit')
  {
    forall k | 0 <= k < |slots|
      ensures HoldsOne(mem, slots[k], tokens[k], limit')
    {
      assert HoldsOne(mem, slots[k], tokens[k], limit);
    }
  }

  /** Whether the digits of a name make an index, and which. */
  method ToIndex(name: bytes, digits: bool) returns (index: nat)
    requires digits == (name != [] && AllDigits(name))
    ensures index == IndexOf(name)
  {
    var isNumber := digits;
    if isNumber && |name| > 1 && name[0] == ZERO {
      isNumber := false;
    }
    var n := 0;
    if isNumber {
      var j := 0;
      while j < |name| && isNumber
        invariant j <= |name| && Numeric(name)
        invariant Convert(name, 0, 0) == if isNumber then Convert(name, j, n) else None
        decreases |name| - j, isNumber
      {
        var m := (n * 10 + DigitOf(name[j])) % 0x1_0000_0000;
        if m < n {
          isNumber := false;
        } else {
          n := m;
          j := j + 1;
        }
      }
    }
    index := if isNumber then n else INVALID_INDEX;
  }

  lemma TripletsOne(s: bytes, i: nat, c: byte)
    requires Triplet(s, i) == Some(c)
    ensures Triplets(s, i, 1) == Some([c])
  {
    assert Triplets(s, i, 0) == Some([]);
    assert [] + [c] == [c];
  }

  lemma TripletsNext(s: bytes, i: nat, units: bytes, valid: bool, p: nat, c: byte, good: bool)
    requires Triplets(s, i, |units|) == if valid then Some(units) else None
    requires valid ==> p == i + 3 * |units| && Triplet(s, p) == if good then Some(c) else None
    ensures Triplets(s, i, |units| + 1) == if valid && good then Some(units + [c]) else None
  {
  }

  lemma UnitsAccepted(s: bytes, i: nat, lead: byte, units: bytes, ok: bool)
    requires Triplet(s, i) == Some(lead) && |units| == 1 + Utf8.TailCount(lead) && units[0] == lead
    requires Triplets(s, i, |units|) == Some(units) && (ok <==> Utf8.CharLength(units, 0) != 0)
    ensures PercentUnits(s, i) == if ok then Some(units) else None
  {
    if ok {
      CharacterFills(units);
    }
  }

  /** A character of as many units as its leading one asks for takes them all. */
  lemma CharacterFills(units: bytes)
    requires units != [] && |units| == 1 + Utf8.TailCount(units[0]) && Utf8.CharLength(units, 0) != 0
    ensures Utf8.CharLength(units, 0) == |units|
  {
  }

  lemma UnitsCut(s: bytes, i: nat, lead: byte, n: nat)
    requires Triplet(s, i) == Some(lead) && n == 1 + Utf8.TailCount(lead) && Triplets(s, i, n).None?
    ensures PercentUnits(s, i).None?
  {
  }

  /** What the units of a percent-encoded character become. */
  lemma DecodedBy(s: bytes, i: nat, units: bytes)
    requires i < |s| && PercentUnits(s, i) == Some(units)
    ensures 1 <= |units| <= 4 && i + 3 * |units| <= |s|
    ensures |units| > 1 ==> PercentDecoded(s, i) == Many(units, i + 3 * |units|)
  {
  }

  class PointerParser {
    const source: bytes
    const nameBuffer: array<byte>
    var name: nat
    var i: nat
    var uriFragment: bool
    var slots: seq<Slot>
    ghost var tokens: seq<Token>
    var error: Option<ErrorCode>
    var errorOffset: nat

    /** How much shorter the names are than what has been read of the source. */
    function Gap(): nat
      reads this
    {
      if uriFragment then 2 else 1
    }

    ghost predicate Valid()
      reads this, nameBuffer
    {
      && nameBuffer.Length == |source|
      && i <= |source|
      && Holds(nameBuffer[..], slots, tokens, name)
    }

    /** Inside a token: names lag behind the reading. */
    ghost predicate InToken(start: nat)
      reads this, nameBuffer
    {
      && nameBuffer.Length == |source| && start <= name && name + Gap() <= i <= |source|
      && Holds(nameBuffer[..], slots, tokens, start)
    }

    /** The outcome as the specification tells it. */
    ghost function Outcome(): Result
      reads this
    {
      if error.Some? then Error(error.value, errorOffset) else Tokens(tokens)
    }

    constructor (source: bytes)
      ensures this.source == source && fresh(nameBuffer) && nameBuffer.Length == |source|
      ensures name == i == 0 && slots == [] && tokens == [] && error.None? && !uriFragment
    {
      this.source := source;
      nameBuffer := new byte[|source|];
      name, i, uriFragment, slots, tokens, error, errorOffset := 0, 0, false, [], [], None, 0;
    }

    method Fail(code: ErrorCode)
      modifies this`error, this`errorOffset
      ensures error == Some(code) && errorOffset == i
    {
      error, errorOffset := Some(code), i;
    }

    /** Writes one name character. */
    method PutName(c: byte, ghost start: nat)
      requires nameBuffer.Length == |source| && start <= name < |source|
      requires Holds(nameBuffer[..], slots, tokens, start)
      modifies nameBuffer, this`name
      ensures name == old(name) + 1 && Holds(nameBuffer[..], slots, tokens, start)
      ensures nameBuffer[start..name] == old(nameBuffer[start..name]) + [c]
    {
      ghost var before := nameBuffer[..];
      nameBuffer[name] := c;
      HoldsKept(before, nameBuffer[..], slots, tokens, start);
      name := name + 1;
    }

    /** One code unit of the percent-decoding stream; after an invalid triplet it gives zeros. */
    method TakePercent(p: nat) returns (c: byte, valid: bool, next: nat)
      requires p <= |source|
      ensures valid == Triplet(source, p).Some?
      ensures if valid then Triplet(source, p) == Some(c) && next == p + 3 <= |source| else c == 0 && next == p
    {
      if p + 3 > |source| || source[p] != PERCENT || !IsHex(source[p + 1]) || !IsHex(source[p + 2]) {
        return 0, false, p;
      }
      return HexValue(source[p + 1]) * 0x10 + HexValue(source[p + 2]), true, p + 3;
    }

    /** Writes past the end of the name so far. */
    method PutAhead(k: nat, c: byte, ghost start: nat)
      requires nameBuffer.Length == |source| && start <= name && name + k < |source|
      requires Holds(nameBuffer[..], slots, tokens, start)
      modifies nameBuffer
      ensures Holds(nameBuffer[..], slots, tokens, start)
      ensures nameBuffer[start..name] == old(nameBuffer[start..name])
      ensures nameBuffer[name..name + k + 1] == old(nameBuffer[name..name + k]) + [c]
    {
      ghost var before := nameBuffer[..];
      nameBuffer[name + k] := c;
      HoldsKept(before, nameBuffer[..], slots, tokens, start);
    }

    /** Decodes the units after the leading one; the first triplet alone has made room for four. */
    method DecodeTails(lead: byte, ghost start: nat) returns (valid: bool, units: bytes)
      requires uriFragment && InToken(start) && Triplet(source, i) == Some(lead) && nameBuffer[name..name + 1] == [lead]
      modifies nameBuffer
      ensures InToken(start) && nameBuffer[start..name] == old(nameBuffer[start..name])
      ensures |units| == 1 + Utf8.TailCount(lead) && units[0] == lead && name + |units| <= |source|
      ensures Triplets(source, i, |units|) == if valid then Some(units) else None
      ensures nameBuffer[name..name + |units|] == units
    {
      units, valid := [lead], true;
      var p: nat := i + 3;
      TripletsOne(source, i, lead);
      while |units| < 1 + Utf8.TailCount(lead)
        invariant 1 <= |units| <= 1 + Utf8.TailCount(lead) && units[0] == lead && name + 4 <= |source|
        invariant InToken(start) && nameBuffer[start..name] == old(nameBuffer[start..name])
        invariant nameBuffer[name..name + |units|] == units
        invariant Triplets(source, i, |units|) == if valid then Some(units) else None
        invariant p <= |source| && (valid ==> p == i + 3 * |units|)
      {
        units, valid, p := DecodeTail(units, valid, p, start);
      }
    }

    method DecodeTail(units: bytes, valid: bool, p: nat, ghost start: nat)
      returns (units': bytes, valid': bool, p': nat)
      requires InToken(start) && name + |units| < |source| && nameBuffer[name..name + |units|] == units
      requires Triplets(source, i, |units|) == if valid then Some(units) else None
      requires p <= |source| && (valid ==> p == i + 3 * |units|)
      modifies nameBuffer
      ensures InToken(start) && nameBuffer[start..name] == old(nameBuffer[start..name])
      ensures units <= units' && |units'| == |units| + 1 && nameBuffer[name..name + |units'|] == units'
      ensures Triplets(source, i, |units'|) == if valid' then Some(units') else None
      ensures p' <= |source| && (valid' ==> p' == i + 3 * |units'|)
    {
      var c, good, next := TakePercent(p);
      PutAhead(|units|, c, start);
      TripletsNext(source, i, units, valid, p, c, good);
      units', valid', p' := units + [c], valid && good, next;
    }

    method PutLead(lead: byte, ghost start: nat)
      requires InToken(start) && i < |source|
      modifies nameBuffer
      ensures InToken(start) && nameBuffer[start..name] == old(nameBuffer[start..name])
      ensures name + 1 <= |source| && nameBuffer[name..name + 1] == [lead]
    {
      PutAhead(0, lead, start);
    }

    /** Decodes and checks one percent-encoded character into the buffer after the name. */
    method DecodePercent(ghost start: nat) returns (ok: bool, units: bytes)
      requires uriFragment && InToken(start) && i < |source|
      modifies nameBuffer
      ensures InToken(start) && nameBuffer[start..name] == old(nameBuffer[start..name])
      ensures PercentUnits(source, i) == if ok then Some(units) else None
      ensures ok ==> name + |units| <= |source| && nameBuffer[name..name + |units|] == units
    {
      var lead, valid, next := TakePercent(i);
      PutLead(lead, start);
      units := [lead];
      if !valid {
        return false, units;
      }
      valid, units := DecodeTails(lead, start);
      ok := false;
      if valid {
        var out;
        ok, out, next := Utf8.Validate(units, 0);
        UnitsAccepted(source, i, lead, units, ok);
      } else {
        UnitsCut(source, i, lead, |units|);
      }
    }

    /** What stands in the buffer for the name so far. */
    ghost function Name(start: nat): bytes
      requires nameBuffer.Length == |source| && start <= name <= |source|
      reads this, nameBuffer
    {
      nameBuffer[start..name]
    }

    /** A code unit whose reading moved the cursor to `i`: the tilde escapes are undone and the result written. */
    method PutUnescaped(unit: byte, ghost start: nat) returns (c: byte)
      requires nameBuffer.Length == |source| && start <= name && name + Gap() < i <= |source| && error.None?
      requires Holds(nameBuffer[..], slots, tokens, start)
      modifies nameBuffer, this`name, this`i, this`error, this`errorOffset
      ensures error.Some? ==> Unescaped(source, unit, old(i)) == Refused(error.value, errorOffset)
      ensures error.None? ==> InToken(start) && Unescaped(source, unit, old(i)) == One(c, i)
      ensures error.None? ==> Name(start) == old(Name(start)) + [c]
    {
      c := unit;
      if c == TILDE {
        if i < |source| && source[i] == ZERO {
          c := TILDE;
        } else if i < |source| && source[i] == 0x31 {
          c := SLASH;
        } else {
          Fail(InvalidEscape);
          return;
        }
        i := i + 1;
      }
      PutName(c, start);
    }

    /** A percent-encoded character: several units are taken into the name, one is left to be looked at. */
    method ReadPercent(ghost start: nat) returns (many: bool, c: byte)
      requires InToken(start) && error.None? && i < |source| && uriFragment
      modifies nameBuffer, this`name, this`i, this`error, this`errorOffset
      ensures error.Some? ==> PercentUnits(source, old(i)).None? && Outcome() == Error(InvalidPercentEncoding, old(i))
      ensures error.None? ==> old(i) < i <= |source| && start <= name && name + Gap() < i
      ensures error.None? ==> Holds(nameBuffer[..], slots, tokens, start)
      ensures error.None? && many ==> PercentDecoded(source, old(i)).Many? && PercentDecoded(source, old(i)).next == i
      ensures error.None? && many ==> Name(start) == old(Name(start)) + PercentDecoded(source, old(i)).units
      ensures error.None? && !many ==> PercentUnits(source, old(i)) == Some([c]) && i == old(i) + 3
      ensures error.None? && !many ==> Name(start) == old(Name(start))
    {
      many, c := false, 0;
      var ok, units := DecodePercent(start);
      if !ok {
        Fail(InvalidPercentEncoding);
        return;
      }
      DecodedBy(source, i, units);
      i := i + 3 * |units|;
      c := units[0];
      many := |units| > 1;
      if many {
        AppendAhead(nameBuffer[..], start, name, units);
        name := name + |units|;
      }
    }

    /** One turn of the loop over a name. */
    method ReadTurn(isNumber: bool, ghost start: nat) returns (digits: bool)
      requires InToken(start) && error.None? && i < |source| && source[i] != SLASH
      modifies nameBuffer, this`name, this`i, this`error, this`errorOffset
      ensures error.Some? ==> TurnAt(source, old(i), uriFragment) == Refused(error.value, errorOffset)
      ensures error.None? ==> InToken(start) && old(i) < i && Turned(old(Name(start)), old(i), isNumber, digits, start)
    {
      digits := false;
      var c := source[i];
      if uriFragment && c == PERCENT {
        var many;
        many, c := ReadPercent(start);
        if error.Some? || many {
          return;
        }
      } else if uriFragment && NeedPercentEncode(c) {
        Fail(CharacterMustPercentEncode);
        return;
      } else {
        i := i + 1;
      }
      c := PutUnescaped(c, start);
      digits := isNumber && IsDigit(c);
    }

    /** The turn from `before` at `at` has been made. */
    ghost predicate Turned(before: bytes, at: nat, isNumber: bool, digits: bool, start: nat)
      requires nameBuffer.Length == |source| && start <= name <= |source| && at <= |source|
      reads this, nameBuffer
    {
      var turn := TurnAt(source, at, uriFragment);
      if turn.One? then turn.next == i && Name(start) == before + [turn.c] && digits == (isNumber && IsDigit(turn.c))
      else turn.Many? && turn.next == i && Name(start) == before + turn.units && !digits
    }

    /** The characters of a name, up to the end or the next slash. */
    method ReadName(ghost start: nat) returns (isNumber: bool)
      requires InToken(start) && error.None? && start == name
      modifies nameBuffer, this`name, this`i, this`error, this`errorOffset
      ensures error.Some? ==> NameFrom(source, old(i), uriFragment, []) == NoName(error.value, errorOffset)
      ensures error.None? ==> InToken(start) && old(i) <= i
      ensures error.None? ==> NameFrom(source, old(i), uriFragment, []) == Named.Name(Name(start), i)
      ensures error.None? ==> isNumber == AllDigits(Name(start))
    {
      isNumber := true;
      ghost var goal := NameFrom(source, i, uriFragment, []);
      while i < |source| && source[i] != SLASH
        invariant InToken(start) && error.None? && old(i) <= i && isNumber == AllDigits(Name(start))
        invariant NameFrom(source, i, uriFragment, Name(start)) == goal
        decreases |source| - i
      {
        ghost var before, at, was := Name(start), i, isNumber;
        isNumber := ReadTurn(isNumber, start);
        NameTurnIs(source, at, uriFragment, before);
        if error.Some? {
          return;
        }
        DigitsSoFar(TurnAt(source, at, uriFragment), source, at, uriFragment, before, was, isNumber);
      }
    }

    /** One token: its slash, its name, the terminator and the index. */
    method ReadToken()
      requires nameBuffer.Length == |source| && error.None? && i < |source| && source[i] == SLASH
      requires name + Gap() <= i + 1 && Holds(nameBuffer[..], slots, tokens, name)
      modifies this, nameBuffer
      ensures uriFragment == old(uriFragment)
      ensures error.Some? ==> NameFrom(source, old(i) + 1, uriFragment, []) == NoName(error.value, errorOffset)
      ensures error.None? ==> old(i) < i <= |source| && (i < |source| ==> source[i] == SLASH)
      ensures error.None? ==> name + Gap() <= i + 1 && Holds(nameBuffer[..], slots, tokens, name)
      ensures error.None? ==>
        var named := NameFrom(source, old(i) + 1, uriFragment, []);
        named.Name? && named.next == i && tokens == old(tokens) + [Token(named.name, IndexOf(named.name))]
    {
      i := i + 1;
      var start := name;
      ghost var named := NameFrom(source, i, uriFragment, []);
      var isNumber := ReadName(start);
      if error.Some? {
        return;
      }
      var length := name - start;
      if length == 0 {
        isNumber := false;
      }
      var index := ToIndex(nameBuffer[start..name], isNumber);
      PutName(0, start);
      EndName(nameBuffer[..], start, name - 1);
      HoldsMore(nameBuffer[..], slots, tokens, start, Slot(start, length, index), Token(named.name, index), name);
      slots := slots + [Slot(start, length, index)];
      tokens := tokens + [Token(named.name, index)];
    }

    /** The whole source. */
    method Parse()
      requires nameBuffer.Length == |source| && name == i == 0 && slots == [] && tokens == [] && error.None?
      requires !uriFragment
      modifies this, nameBuffer
      ensures Outcome() == Pointer.Parse(source)
      ensures error.None? ==> Holds(nameBuffer[..], slots, tokens, name) && name <= |source|
    {
      if 0 < |source| && source[0] == HASH {
        uriFragment := true;
        i := 1;
      }
      if i != |source| && source[i] != SLASH {
        Fail(TokenMustBeginWithSolidus);
        return;
      }
      ghost var goal := TokensFrom(source, i, uriFragment, []);
      while i < |source|
        invariant error.None? && i <= |source| && (i < |source| ==> source[i] == SLASH)
        invariant name + Gap() <= i + 1 && Holds(nameBuffer[..], slots, tokens, name)
        invariant TokensFrom(source, i, uriFragment, tokens) == goal
        decreases |source| - i
      {
        ReadToken();
        if error.Some? {
          return;
        }
      }
    }
  }

  lemma NameTurnIs(s: bytes, i: nat, uri: bool, name: bytes)
    requires i <= |s|
    ensures var turn := TurnAt(s, i, uri);
      && (turn.One? ==> NameFrom(s, i, uri, name) == NameFrom(s, turn.next, uri, name + [turn.c]))
      && (turn.Many? ==> NameFrom(s, i, uri, name) == NameFrom(s, turn.next, uri, name + turn.units))
      && (turn.Refused? ==> NameFrom(s, i, uri, name) == NoName(turn.code, turn.offset))
  {
  }

  /** Bytes of a character of several units are no digits. */
  lemma DigitsSoFar(turn: Turn, s: bytes, i: nat, uri: bool, before: bytes, was: bool, digits: bool)
    requires i <= |s| && turn == TurnAt(s, i, uri) && was == AllDigits(before)
    requires if turn.One? then digits == (was && IsDigit(turn.c)) else turn.Many? && !digits
    ensures digits == AllDigits(before + if turn.One? then [turn.c] else turn.units)
  {
    if turn.Many? {
      var units := PercentUnits(s, i).value;
      assert units[0] >= 0x80;
      assert (before + units)[|before|] == units[0];
    } else {
      assert (before + [turn.c])[|before|] == turn.c;
      assert AllDigits(before + [turn.c]) ==> AllDigits(before) by {
        assert forall k | 0 <= k < |before| :: (before + [turn.c])[k] == before[k];
      }
    }
  }

  lemma EndName(mem: bytes, start: nat, end: nat)
    requires start <= end < |mem|
    ensures mem[start..end + 1][..end - start] == mem[start..end]
  {
  }

  lemma AppendAhead(mem: bytes, start: nat, name: nat, units: bytes)
    requires start <= name && name + |units| <= |mem| && mem[name..name + |units|] == units
    ensures mem[start..name + |units|] == mem[start..name] + units
  {
  }

  // ---------------------------------------------------------------- Printing

  /** Percent-encodes code units. */
  method PutPercent(units: bytes, out: bytes) returns (r: bytes)
    ensures r == out + PercentText(units)
  {
    r := out;
    for k := 0 to |units|
      invariant r == out + PercentText(units[..k])
    {
      assert units[..k + 1][..k] == units[..k];
      r := r + [PERCENT] + [HexDigit(units[k] / 0x10)] + [HexDigit(units[k] % 0x10)];
    }
    assert units[..|units|] == units;
  }

  /** One turn of the loop over a name; a character that is not well-formed cannot be percent-encoded. */
  method PutUnit(name: bytes, j: nat, uriFragment: bool, out: bytes) returns (ok: bool, r: bytes, next: nat)
    requires j < |name|
    ensures ok == (NameUnitLength(name, j, uriFragment) != 0)
    ensures ok ==> next == j + NameUnitLength(name, j, uriFragment) && r == out + NameUnitText(name, j, uriFragment)
  {
    var c := name[j];
    ok, next := true, j + 1;
    if c == TILDE {
      r := out + [TILDE, ZERO];
    } else if c == SLASH {
      r := out + [TILDE, 0x31];
    } else if uriFragment && NeedPercentEncode(c) {
      var units;
      ok, units, next := Utf8.Validate(name, j);
      r := out;
      if ok {
        r := PutPercent(units, out);
      }
    } else {
      r := out + [c];
    }
  }

  method PutNameText(name: bytes, uriFragment: bool, out: bytes) returns (ok: bool, r: bytes)
    ensures ok == PrintName(name, 0, uriFragment).Some?
    ensures ok ==> r == out + PrintName(name, 0, uriFragment).value
  {
    r := out;
    var j := 0;
    while j < |name|
      invariant j <= |name|
      invariant PrintName(name, 0, uriFragment).Some? <==> PrintName(name, j, uriFragment).Some?
      invariant PrintName(name, 0, uriFragment).Some? ==>
        out + PrintName(name, 0, uriFragment).value == r + PrintName(name, j, uriFragment).value
      decreases |name| - j
    {
      ghost var before := r;
      var next;
      PrintStep(name, j, uriFragment);
      ok, r, next := PutUnit(name, j, uriFragment, r);
      if !ok {
        return;
      }
      JoinUnit(before, name, j, uriFragment, next);
      j := next;
    }
    ok := true;
  }

  lemma JoinUnit(before: bytes, name: bytes, j: nat, uri: bool, next: nat)
    requires j < |name| && NameUnitLength(name, j, uri) != 0 && next == j + NameUnitLength(name, j, uri)
    ensures PrintName(name, next, uri).Some? ==>
      before + (NameUnitText(name, j, uri) + PrintName(name, next, uri).value)
        == before + NameUnitText(name, j, uri) + PrintName(name, next, uri).value
  {
  }

  /** The text of the tokens, or the refusal at the first name that has no URI form. */
  method Stringify(tokens: seq<Token>, uriFragment: bool) returns (ok: bool, out: bytes)
    ensures ok == Pointer.Stringify(tokens, uriFragment).Some?
    ensures ok ==> Some(out) == Pointer.Stringify(tokens, uriFragment)
  {
    ghost var head: bytes := if uriFragment then [HASH] else [];
    out := if uriFragment then [HASH] else [];
    for k := 0 to |tokens|
      invariant PrintTokens(tokens, 0, uriFragment).Some? <==> PrintTokens(tokens, k, uriFragment).Some?
      invariant PrintTokens(tokens, 0, uriFragment).Some? ==>
        head + PrintTokens(tokens, 0, uriFragment).value == out + PrintTokens(tokens, k, uriFragment).value
    {
      ghost var before := out;
      ok, out := PutNameText(tokens[k].name, uriFragment, out + [SLASH]);
      if !ok {
        return;
      }
      JoinToken(before, tokens, k, uriFragment);
    }
    AllPrinted(tokens, uriFragment, head, out);
    ok := true;
  }

  lemma AllPrinted(tokens: seq<Token>, uri: bool, head: bytes, out: bytes)
    requires PrintTokens(tokens, 0, uri).Some? <==> PrintTokens(tokens, |tokens|, uri).Some?
    requires PrintTokens(tokens, 0, uri).Some? ==>
      head + PrintTokens(tokens, 0, uri).value == out + PrintTokens(tokens, |tokens|, uri).value
    requires head == if uri then [HASH] else []
    ensures Pointer.Stringify(tokens, uri) == Some(out)
  {
    assert PrintTokens(tokens, |tokens|, uri) == Some([]);
    assert out + [] == out;
  }

  lemma JoinToken(before: bytes, tokens: seq<Token>, k: nat, uri: bool)
    requires k < |tokens| && PrintName(tokens[k].name, 0, uri).Some?
    ensures PrintTokens(tokens, k + 1, uri).Some? ==>
      var own, rest := PrintName(tokens[k].name, 0, uri).value, PrintTokens(tokens, k + 1, uri).value;
      before + ([SLASH] + own + rest) == before + [SLASH] + own + rest
  {
    if PrintTokens(tokens, k + 1, uri).Some? {
      Concat(before, [SLASH], PrintName(tokens[k].name, 0, uri).value, PrintTokens(tokens, k + 1, uri).value);
    }
  }

  lemma Concat(a: bytes, b: bytes, c: bytes, d: bytes)
    ensures a + (b + c + d) == a + b + c + d
  {
  }
}
