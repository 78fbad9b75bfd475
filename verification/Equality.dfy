/** The comparison of document values, and what it compares. */
module Equality {
  import opened Bytes
  import opened Dom
  import PointerResolve

  /**
   Two values without doubles are compared type by type: numbers by their 64 bits, arrays element by element, and
   objects by looking every member of the first up in the second.
   */
  predicate Equal(a: Value, b: Value)
    requires NoDoubles(a) && NoDoubles(b)
    decreases a
  {
    match a
    case NullValue => b.NullValue?
    case BoolValue(x) => b == a
    case NumberValue(word, _) => b.NumberValue? && word == b.word
    case StringValue(str) => b == a
    case ArrayValue(elements) =>
      && b.ArrayValue? && |elements| == |b.elements|
      && forall i | 0 <= i < |elements| :: Equal(elements[i], b.elements[i])
    case ObjectValue(members) =>
      && b.ObjectValue? && |members| == |b.members|
      && forall i | 0 <= i < |members| ::
           var found := PointerResolve.FindMember(b.members, members[i].name);
           found.Some? && Equal(members[i].value, b.members[found.value].value)
  }

  predicate NoDoubles(v: Value) {
    match v
    case DoubleValue(_) => false
    case ArrayValue(elements) => forall i | 0 <= i < |elements| :: NoDoubles(elements[i])
    case ObjectValue(members) => forall i | 0 <= i < |members| :: NoDoubles(members[i].value)
    case _ => true
  }

  predicate Unique(members: seq<Member>) {
    forall i, j | 0 <= i < j < |members| :: members[i].name != members[j].name
  }

  /** No double anywhere, and no object with two members of one name. */
  predicate Plain(v: Value)
    ensures Plain(v) ==> NoDoubles(v)
  {
    match v
    case DoubleValue(_) => false
    case ArrayValue(elements) => forall i | 0 <= i < |elements| :: Plain(elements[i])
    case ObjectValue(members) => Unique(members) && forall i | 0 <= i < |members| :: Plain(members[i].value)
    case _ => true
  }

  /** What a value means: an object is a map from names, and a number is its 64-bit word. */
  datatype Meaning =
    | NullMeaning
    | BoolMeaning(b: bool)
    | WordMeaning(word: nat)
    | TextMeaning(str: bytes)
    | ListMeaning(elements: seq<Meaning>)
    | MapMeaning(members: map<bytes, Meaning>)

  ghost function Mean(v: Value): (m: Meaning)
    requires Plain(v)
    decreases v
  {
    match v
    case NullValue => NullMeaning
    case BoolValue(b) => BoolMeaning(b)
    case NumberValue(word, _) => WordMeaning(word)
    case StringValue(str) => TextMeaning(str)
    case ArrayValue(elements) => ListMeaning(seq(|elements|, i requires 0 <= i < |elements| => Mean(elements[i])))
    case ObjectValue(members) => 
      MapMeaning(map name | name in Names(members) ::
        name := Mean(members[PointerResolve.FindMember(members, name).value].value))
  }

  function Names(members: seq<Member>): (s: set<bytes>) {
    set i | 0 <= i < |members| :: members[i].name
  }

  // ---------------------------------------------------------------- Comparing is comparing meanings

  /** Members of different names have as many names. */
  lemma {:induction false} UniqueCount(members: seq<Member>)
    requires Unique(members)
    ensures |Names(members)| == |members|
  {
    if members != [] {
      var last := |members| - 1;
      var before := members[..last];
      UniqueCount(before);
      assert forall i | 0 <= i < last :: before[i] == members[i];
      assert Names(members) == Names(before) + {members[last].name};
    }
  }

  lemma SubsetOfSameSize<T>(a: set<T>, b: set<T>)
    requires a <= b && |a| == |b|
    ensures a == b
  {
    assert b == a + (b - a);
  }

  /** As many members, all of whose names occur in the other object: then the names are the same. */
  lemma SameNames(xs: seq<Member>, ys: seq<Member>)
    requires Unique(xs) && Unique(ys) && |xs| == |ys|
    requires forall i | 0 <= i < |xs| :: xs[i].name in Names(ys)
    ensures Names(xs) == Names(ys)
  {
    UniqueCount(xs);
    UniqueCount(ys);
    SubsetOfSameSize(Names(xs), Names(ys));
  }

  /** The member that is found is the only one of its name. */
  lemma FoundIs(members: seq<Member>, j: nat)
    requires Unique(members) && j < |members|
    ensures PointerResolve.FindMember(members, members[j].name) == Some(j)
  {
    var found := PointerResolve.FindMember(members, members[j].name);
    assert found.Some?;
    assert members[found.value].name == members[j].name;
  }

  ghost function Map(members: seq<Member>): (m: map<bytes, Meaning>)
    requires Plain(ObjectValue(members))
  {
    Mean(ObjectValue(members)).members
  }

  lemma MapNames(members: seq<Member>)
    requires Plain(ObjectValue(members))
    ensures Map(members).Keys == Names(members)
  {
  }

  lemma MapMember(members: seq<Member>, j: nat)
    requires Plain(ObjectValue(members)) && j < |members|
    ensures members[j].name in Map(members) && Map(members)[members[j].name] == Mean(members[j].value)
  {
    FoundIs(members, j);
    assert members[j].name in Names(members);
  }

  /** Two values compare equal exactly when they mean the same. */
  lemma {:induction false} EqualIsSameMeaning(a: Value, b: Value)
    requires Plain(a) && Plain(b)
    ensures Equal(a, b) <==> Mean(a) == Mean(b)
    decreases a
  {
    if a.ArrayValue? && b.ArrayValue? {
      forall i | 0 <= i < |a.elements| && i < |b.elements|
        ensures Equal(a.elements[i], b.elements[i]) <==> Mean(a.elements[i]) == Mean(b.elements[i])
      {
        EqualIsSameMeaning(a.elements[i], b.elements[i]);
      }
      ArraysAgree(a.elements, b.elements);
    } else if a.ObjectValue? && b.ObjectValue? {
      forall i, j | 0 <= i < |a.members| && 0 <= j < |b.members|
        ensures Equal(a.members[i].value, b.members[j].value)
           <==> Mean(a.members[i].value) == Mean(b.members[j].value)
      {
        EqualIsSameMeaning(a.members[i].value, b.members[j].value);
      }
      ObjectsAgree(a.members, b.members);
    }
  }

  lemma ArraysAgree(xs: seq<Value>, ys: seq<Value>)
    requires Plain(ArrayValue(xs)) && Plain(ArrayValue(ys))
    requires forall i | 0 <= i < |xs| && i < |ys| :: Equal(xs[i], ys[i]) <==> Mean(xs[i]) == Mean(ys[i])
    ensures Equal(ArrayValue(xs), ArrayValue(ys)) <==> Mean(ArrayValue(xs)) == Mean(ArrayValue(ys))
  {
    var p, q := Mean(ArrayValue(xs)).elements, Mean(ArrayValue(ys)).elements;
    assert |p| == |xs| && |q| == |ys|;
    assert forall i | 0 <= i < |xs| :: p[i] == Mean(xs[i]);
    assert forall i | 0 <= i < |ys| :: q[i] == Mean(ys[i]);
  }

  ghost predicate ValuesAgree(xs: seq<Member>, ys: seq<Member>)
    requires Plain(ObjectValue(xs)) && Plain(ObjectValue(ys))
  {
    forall i, j | 0 <= i < |xs| && 0 <= j < |ys| ::
      Equal(xs[i].value, ys[j].value) <==> Mean(xs[i].value) == Mean(ys[j].value)
  }

  lemma ObjectsAgree(xs: seq<Member>, ys: seq<Member>)
    requires Plain(ObjectValue(xs)) && Plain(ObjectValue(ys)) && ValuesAgree(xs, ys)
    ensures Equal(ObjectValue(xs), ObjectValue(ys)) <==> Mean(ObjectValue(xs)) == Mean(ObjectValue(ys))
  {
    if Equal(ObjectValue(xs), ObjectValue(ys)) {
      EqualObjectsMean(xs, ys);
    }
    if Mean(ObjectValue(xs)) == Mean(ObjectValue(ys)) {
      SameMapsEqual(xs, ys);
    }
  }

  lemma EqualObjectsMean(xs: seq<Member>, ys: seq<Member>)
    requires Plain(ObjectValue(xs)) && Plain(ObjectValue(ys)) && ValuesAgree(xs, ys)
    requires Equal(ObjectValue(xs), ObjectValue(ys))
    ensures Mean(ObjectValue(xs)) == Mean(ObjectValue(ys))
  {
    forall i: nat | i < |xs|
      ensures xs[i].name in Names(ys)
      ensures xs[i].name in Map(xs) && xs[i].name in Map(ys) && Map(xs)[xs[i].name] == Map(ys)[xs[i].name]
    {
      var found := PointerResolve.FindMember(ys, xs[i].name);
      assert found.Some? && Equal(xs[i].value, ys[found.value].value);
      MapMember(xs, i);
      MapMember(ys, found.value);
    }
    SameNames(xs, ys);
    MapNames(xs);
    MapNames(ys);
    SameMaps(xs, Map(xs), Map(ys));
  }

  lemma SameMaps(xs: seq<Member>, p: map<bytes, Meaning>, q: map<bytes, Meaning>)
    requires p.Keys == q.Keys == Names(xs)
    requires forall i: nat | i < |xs| :: xs[i].name in p && xs[i].name in q && p[xs[i].name] == q[xs[i].name]
    ensures p == q
  {
  }

  lemma SameMapsEqual(xs: seq<Member>, ys: seq<Member>)
    requires Plain(ObjectValue(xs)) && Plain(ObjectValue(ys)) && ValuesAgree(xs, ys)
    requires Mean(ObjectValue(xs)) == Mean(ObjectValue(ys))
    ensures Equal(ObjectValue(xs), ObjectValue(ys))
  {
    MapNames(xs);
    MapNames(ys);
    UniqueCount(xs);
    UniqueCount(ys);
    forall i: nat | i < |xs|
      ensures
        var found := PointerResolve.FindMember(ys, xs[i].name);
        found.Some? && Equal(xs[i].value, ys[found.value].value)
    {
      MemberFound(xs, ys, i);
    }
  }

  lemma MemberFound(xs: seq<Member>, ys: seq<Member>, i: nat)
    requires Plain(ObjectValue(xs)) && Plain(ObjectValue(ys)) && ValuesAgree(xs, ys)
    requires Map(xs) == Map(ys) && i < |xs|
    ensures
      var found := PointerResolve.FindMember(ys, xs[i].name);
      found.Some? && Equal(xs[i].value, ys[found.value].value)
  {
    MapMember(xs, i);
    MapNames(ys);
    assert xs[i].name in Names(ys);
    var j: nat :| j < |ys| && ys[j].name == xs[i].name;
    FoundIs(ys, j);
    MapMember(ys, j);
  }

  // ---------------------------------------------------------------- An equivalence

  /** On values without doubles whose objects have unique names, comparing is an equivalence. */
  lemma EqualIsEquivalence(a: Value, b: Value, c: Value)
    requires Plain(a) && Plain(b) && Plain(c)
    ensures Equal(a, a)
    ensures Equal(a, b) ==> Equal(b, a)
    ensures Equal(a, b) && Equal(b, c) ==> Equal(a, c)
  {
    EqualIsSameMeaning(a, a);
    EqualIsSameMeaning(a, b);
    EqualIsSameMeaning(b, a);
    EqualIsSameMeaning(b, c);
    EqualIsSameMeaning(a, c);
  }

  /** Names are at most as many as members, and as many only when all differ. */
  lemma {:induction false} NamesAtMost(members: seq<Member>)
    ensures |Names(members)| <= |members|
    ensures |Names(members)| == |members| ==> Unique(members)
  {
    if members != [] {
      var last := |members| - 1;
      var before := members[..last];
      NamesAtMost(before);
      assert forall i | 0 <= i < last :: before[i] == members[i];
      assert Names(members) == Names(before) + {members[last].name};
      if |Names(members)| == |members| {
        assert members[last].name !in Names(before);
      }
    }
  }

  /** Reordering keeps members, so it keeps names different and values plain. */
  lemma ReorderedIsPlain(xs: seq<Member>, ys: seq<Member>)
    requires Plain(ObjectValue(xs)) && multiset(xs) == multiset(ys)
    ensures Plain(ObjectValue(ys))
  {
    assert |multiset(xs)| == |xs| && |multiset(ys)| == |ys|;
    forall i | 0 <= i < |ys|
      ensures ys[i].name in Names(xs) && Plain(ys[i].value)
    {
      assert ys[i] in multiset(xs);
    }
    forall i | 0 <= i < |xs|
      ensures xs[i].name in Names(ys)
    {
      assert xs[i] in multiset(ys);
    }
    assert Names(xs) == Names(ys);
    UniqueCount(xs);
    NamesAtMost(ys);
  }

  /** The order of members does not matter. */
  lemma OrderDoesNotMatter(xs: seq<Member>, ys: seq<Member>)
    requires Plain(ObjectValue(xs)) && multiset(xs) == multiset(ys)
    ensures Plain(ObjectValue(ys)) && Equal(ObjectValue(xs), ObjectValue(ys))
  {
    ReorderedIsPlain(xs, ys);
    assert |multiset(xs)| == |xs| && |multiset(ys)| == |ys|;
    forall i | 0 <= i < |xs|
      ensures
        var found := PointerResolve.FindMember(ys, xs[i].name);
        found.Some? && Equal(xs[i].value, ys[found.value].value)
    {
      assert xs[i] in multiset(xs);
      var j :| 0 <= j < |ys| && ys[j] == xs[i];
      FoundIs(ys, j);
      EqualIsSameMeaning(xs[i].value, xs[i].value);
    }
  }

  /** Two integers compare equal exactly when they agree modulo 2^64: minus one equals the largest 64-bit integer. */
  lemma IntegersAsWords(i: int, j: int)
    requires InWord(i) && InWord(j)
    ensures Equal(Canonical(i), Canonical(j)) <==> (i == j || i - j == WORD || j - i == WORD)
    ensures Equal(Canonical(-1), Canonical(WORD - 1))
  {
  }

  // ---------------------------------------------------------------- Names that occur twice

  /** Where the first member with the name of the `i`-th one stands. */
  function FirstOf(members: seq<Member>, i: nat): (f: nat)
    requires i < |members|
    ensures f <= i && members[f].name == members[i].name
    ensures forall k | 0 <= k < f :: members[k].name != members[i].name
  {
    PointerResolve.FindMember(members, members[i].name).value
  }

  /** At every level, a member whose name occurred before has a value that compares equal to the first one's. */
  predicate Coherent(v: Value)
    requires NoDoubles(v)
    decreases v
  {
    match v
    case ArrayValue(elements) => forall i | 0 <= i < |elements| :: Coherent(elements[i])
    case ObjectValue(members) =>
      forall i: nat | i < |members| ::
        if FirstOf(members, i) == i then Coherent(members[i].value)
        else Equal(members[i].value, members[FirstOf(members, i)].value)
    case _ => true
  }

  /** A value compares equal to itself exactly when it is coherent. */
  lemma {:induction false} ReflexiveExactly(v: Value)
    requires NoDoubles(v)
    ensures Equal(v, v) <==> Coherent(v)
    decreases v
  {
    if v.ArrayValue? {
      forall i | 0 <= i < |v.elements|
        ensures Equal(v.elements[i], v.elements[i]) <==> Coherent(v.elements[i])
      {
        ReflexiveExactly(v.elements[i]);
      }
    } else if v.ObjectValue? {
      forall i | 0 <= i < |v.members|
        ensures Equal(v.members[i].value, v.members[i].value) <==> Coherent(v.members[i].value)
      {
        ReflexiveExactly(v.members[i].value);
      }
      ObjectReflexive(v.members);
    }
  }

  lemma ObjectReflexive(members: seq<Member>)
    requires NoDoubles(ObjectValue(members))
    requires forall i | 0 <= i < |members| :: Equal(members[i].value, members[i].value) <==> Coherent(members[i].value)
    ensures Equal(ObjectValue(members), ObjectValue(members)) <==> Coherent(ObjectValue(members))
  {
    forall i: nat | i < |members|
      ensures PointerResolve.FindMember(members, members[i].name) == Some(FirstOf(members, i))
    {
      assert PointerResolve.FindMember(members, members[i].name).Some?;
    }
  }

  /** Comparing is transitive, whatever the names. */
  lemma {:induction false} EqualIsTransitive(a: Value, b: Value, c: Value)
    requires NoDoubles(a) && NoDoubles(b) && NoDoubles(c)
    requires Equal(a, b) && Equal(b, c)
    ensures Equal(a, c)
    decreases a
  {
    if a.ArrayValue? {
      forall i | 0 <= i < |a.elements|
        ensures Equal(a.elements[i], c.elements[i])
      {
        EqualIsTransitive(a.elements[i], b.elements[i], c.elements[i]);
      }
    } else if a.ObjectValue? {
      forall i | 0 <= i < |a.members|
        ensures
          var found := PointerResolve.FindMember(c.members, a.members[i].name);
          found.Some? && Equal(a.members[i].value, c.members[found.value].value)
      {
        var j := PointerResolve.FindMember(b.members, a.members[i].name).value;
        var k := PointerResolve.FindMember(c.members, b.members[j].name).value;
        EqualIsTransitive(a.members[i].value, b.members[j].value, c.members[k].value);
      }
    }
  }

  /**
   What turning a comparison round takes: at every matched pair of objects, each name of the second occurs in the
   first; the first members of one name can be turned round themselves; and in the second a member whose name
   occurred before compares equal to the first one of that name.
   */
  predicate Reversible(a: Value, b: Value)
    requires NoDoubles(a) && NoDoubles(b) && Equal(a, b)
    decreases a
  {
    match a
    case ArrayValue(elements) => forall i | 0 <= i < |elements| :: Reversible(elements[i], b.elements[i])
    case ObjectValue(members) =>
      && (forall j: nat | j < |b.members| :: b.members[j].name in Names(members))
      && (forall i: nat | i < |members| && FirstOf(members, i) == i ::
            Reversible(members[i].value, Partner(a, b, i)))
      && (forall j: nat | j < |b.members| && FirstOf(b.members, j) != j ::
            Equal(b.members[j].value, b.members[FirstOf(b.members, j)].value))
    case _ => true
  }

  /** The value that the comparison sets against the `i`-th member's. */
  function Partner(a: Value, b: Value, i: nat): (v: Value)
    requires NoDoubles(a) && NoDoubles(b) && Equal(a, b) && a.ObjectValue? && i < |a.members|
    ensures NoDoubles(v) && Equal(a.members[i].value, v)
  {
    b.members[PointerResolve.FindMember(b.members, a.members[i].name).value].value
  }

  /** A comparison that holds can be turned round exactly when it is reversible. */
  lemma {:induction false} SymmetricExactly(a: Value, b: Value)
    requires NoDoubles(a) && NoDoubles(b) && Equal(a, b)
    ensures Equal(b, a) <==> Reversible(a, b)
    decreases a
  {
    if a.ArrayValue? {
      forall i | 0 <= i < |a.elements|
        ensures Equal(b.elements[i], a.elements[i]) <==> Reversible(a.elements[i], b.elements[i])
      {
        SymmetricExactly(a.elements[i], b.elements[i]);
      }
    } else if a.ObjectValue? {
      forall i: nat | i < |a.members|
        ensures Equal(Partner(a, b, i), a.members[i].value) <==> Reversible(a.members[i].value, Partner(a, b, i))
      {
        SymmetricExactly(a.members[i].value, Partner(a, b, i));
      }
      if Equal(b, a) {
        TurnedRound(a, b);
      }
      if Reversible(a, b) {
        TurnsRound(a, b);
      }
    }
  }

  lemma TurnedRound(a: Value, b: Value)
    requires NoDoubles(a) && NoDoubles(b) && Equal(a, b) && a.ObjectValue? && Equal(b, a)
    requires forall i: nat | i < |a.members| ::
      Equal(Partner(a, b, i), a.members[i].value) <==> Reversible(a.members[i].value, Partner(a, b, i))
    ensures Reversible(a, b)
  {
    forall j: nat | j < |b.members|
      ensures b.members[j].name in Names(a.members)
      ensures Equal(b.members[j].value, b.members[FirstOf(b.members, j)].value)
    {
      LaterIsEqual(a, b, j);
    }
    forall i: nat | i < |a.members| && FirstOf(a.members, i) == i
      ensures Equal(Partner(a, b, i), a.members[i].value)
    {
      PartnerReturns(a, b, i);
    }
  }

  /** The look-up of the `j`-th member of `b` in `a`, and back. */
  lemma LaterIsEqual(a: Value, b: Value, j: nat)
    requires NoDoubles(a) && NoDoubles(b) && Equal(a, b) && a.ObjectValue? && Equal(b, a) && j < |b.members|
    ensures b.members[j].name in Names(a.members)
    ensures Equal(b.members[j].value, b.members[FirstOf(b.members, j)].value)
  {
    var i := PointerResolve.FindMember(a.members, b.members[j].name).value;
    assert a.members[i].name == b.members[j].name;
    assert Partner(a, b, i) == b.members[FirstOf(b.members, j)].value;
    EqualIsTransitive(b.members[j].value, a.members[i].value, Partner(a, b, i));
  }

  lemma PartnerReturns(a: Value, b: Value, i: nat)
    requires NoDoubles(a) && NoDoubles(b) && Equal(a, b) && a.ObjectValue? && Equal(b, a)
    requires i < |a.members| && FirstOf(a.members, i) == i
    ensures Equal(Partner(a, b, i), a.members[i].value)
  {
    var j := PointerResolve.FindMember(b.members, a.members[i].name).value;
    assert b.members[j].name == a.members[i].name;
    assert PointerResolve.FindMember(a.members, b.members[j].name) == Some(i);
  }

  lemma TurnsRound(a: Value, b: Value)
    requires NoDoubles(a) && NoDoubles(b) && Equal(a, b) && a.ObjectValue? && Reversible(a, b)
    requires forall i: nat | i < |a.members| ::
      Equal(Partner(a, b, i), a.members[i].value) <==> Reversible(a.members[i].value, Partner(a, b, i))
    ensures Equal(b, a)
  {
    forall j: nat | j < |b.members|
      ensures
        var found := PointerResolve.FindMember(a.members, b.members[j].name);
        found.Some? && Equal(b.members[j].value, a.members[found.value].value)
    {
      MemberTurnsRound(a, b, j);
    }
  }

  lemma MemberTurnsRound(a: Value, b: Value, j: nat)
    requires NoDoubles(a) && NoDoubles(b) && Equal(a, b) && a.ObjectValue? && Reversible(a, b) && j < |b.members|
    requires forall i: nat | i < |a.members| ::
      Equal(Partner(a, b, i), a.members[i].value) <==> Reversible(a.members[i].value, Partner(a, b, i))
    ensures
      var found := PointerResolve.FindMember(a.members, b.members[j].name);
      found.Some? && Equal(b.members[j].value, a.members[found.value].value)
  {
    assert b.members[j].name in Names(a.members);
    var found := PointerResolve.FindMember(a.members, b.members[j].name);
    assert found.Some?;
    var i, f := found.value, FirstOf(b.members, j);
    assert FirstOf(a.members, i) == i;
    assert Partner(a, b, i) == b.members[f].value;
    if f != j {
      EqualIsTransitive(b.members[j].value, b.members[f].value, a.members[i].value);
    }
  }

  const A: bytes := [0x61]
  const B: bytes := [0x62]
  const TWICE := ObjectValue([Member(A, NullValue), Member(A, NullValue)])
  const DIFFERENT := ObjectValue([Member(A, NullValue), Member(A, BoolValue(true))])
  const BOTH := ObjectValue([Member(A, NullValue), Member(B, NullValue)])

  /**
   With a name twice, comparing is neither reflexive nor symmetric, and it is not always false either, although the
   source's comment says so.
   */
  lemma DuplicatesBreakEquality()
    ensures !Equal(DIFFERENT, DIFFERENT)
    ensures Equal(TWICE, BOTH) && !Equal(BOTH, TWICE)
    ensures Equal(TWICE, TWICE)
  {
    assert PointerResolve.FindMember(DIFFERENT.members, A) == Some(0);
    assert PointerResolve.FindMember(TWICE.members, A) == Some(0);
    assert PointerResolve.FindMember(BOTH.members, A) == Some(0);
    assert PointerResolve.FindMember(TWICE.members, B).None?;
    assert DIFFERENT.members[1].name == A && BOTH.members[1].name == B;
  }
}
