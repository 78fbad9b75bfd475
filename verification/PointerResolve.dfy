/** Resolving a pointer in a value, and creating what it points to. */
module PointerResolve {
  import opened Bytes
  import opened Dom
  import opened Pointer

  const DASH: bytes := [MINUS]

  /** The first member of a name. */
  function FindMember(members: seq<Member>, name: bytes, i: nat := 0): (r: Option<nat>)
    requires i <= |members|
    ensures r.Some? ==> i <= r.value < |members| && members[r.value].name == name
    ensures r.Some? ==> forall k | i <= k < r.value :: members[k].name != name
    ensures r.None? ==> forall k | i <= k < |members| :: members[k].name != name
    decreases |members| - i
  {
    if i == |members| then None else if members[i].name == name then Some(i) else FindMember(members, name, i + 1)
  }

  /** The child a token picks, and nothing else. */
  function Child(v: Value, t: Token): Option<Value> {
    match v
    case ObjectValue(members) =>
      (match FindMember(members, t.name)
       case Some(i) => Some(members[i].value)
       case None => None)
    case ArrayValue(elements) =>
      if t.index != INVALID_INDEX && t.index < |elements| then Some(elements[t.index]) else None
    case _ => None
  }

  /** The value the tokens from the `k`-th on lead to. */
  function Get(v: Value, tokens: seq<Token>, k: nat := 0): Option<Value>
    requires k <= |tokens|
    decreases |tokens| - k
  {
    if k == |tokens| then Some(v)
    else
      match Child(v, tokens[k])
      case None => None
      case Some(c) => Get(c, tokens, k + 1)
  }

  /** The index of the first token that does not resolve. */
  function Unresolved(v: Value, tokens: seq<Token>, k: nat := 0): (u: nat)
    requires k <= |tokens|
    ensures k <= u <= |tokens| && (u == |tokens| <==> Get(v, tokens, k).Some?)
    decreases |tokens| - k
  {
    if k == |tokens| then k
    else
      match Child(v, tokens[k])
      case None => k
      case Some(c) => Unresolved(c, tokens, k + 1)
  }

  /** The token takes the place in the value: an element by its index, or the first member of a name. */
  ghost predicate Takes(v: Value, t: Token, place: nat) {
    match v
    case ArrayValue(elements) => place < |elements| && place == t.index < 0xFFFF_FFFF
    case ObjectValue(members) =>
      place < |members| && members[place].name == t.name && forall j | 0 <= j < place :: members[j].name != t.name
    case _ => false
  }

  /** The tokens take these places one after the other, which lead to the value `x`. */
  ghost predicate LeadsTo(v: Value, tokens: seq<Token>, k: nat, places: seq<nat>, x: Value)
    requires k <= |tokens|
    decreases |tokens| - k
  {
    if k == |tokens| then places == [] && x == v
    else
      && places != [] && Takes(v, tokens[k], places[0])
      && LeadsTo(ChildAt(v, places[0]), tokens, k + 1, places[1..], x)
  }

  lemma PlaceTaken(v: Value, t: Token, place: nat)
    requires Takes(v, t, place)
    ensures Child(v, t) == Some(ChildAt(v, place))
  {
    if v.ObjectValue? {
      var found := FindMember(v.members, t.name);
      assert found.Some? && found.value == place;
    }
  }

  lemma PlaceFound(v: Value, t: Token) returns (place: nat)
    requires Child(v, t).Some? && t.index <= INVALID_INDEX
    ensures Takes(v, t, place) && Child(v, t) == Some(ChildAt(v, place))
  {
    place := if v.ArrayValue? then t.index else FindMember(v.members, t.name).value;
  }

  lemma {:induction false} LedTo(v: Value, tokens: seq<Token>, k: nat, places: seq<nat>, x: Value)
    requires k <= |tokens| && LeadsTo(v, tokens, k, places, x)
    ensures Get(v, tokens, k) == Some(x)
    decreases |tokens| - k
  {
    if k < |tokens| {
      PlaceTaken(v, tokens[k], places[0]);
      LedTo(ChildAt(v, places[0]), tokens, k + 1, places[1..], x);
    }
  }

  lemma {:induction false} PlacesFound(v: Value, tokens: seq<Token>, k: nat, x: Value) returns (places: seq<nat>)
    requires k <= |tokens| && forall i | 0 <= i < |tokens| :: tokens[i].index <= INVALID_INDEX
    requires Get(v, tokens, k) == Some(x)
    ensures LeadsTo(v, tokens, k, places, x)
    decreases |tokens| - k
  {
    if k == |tokens| {
      places := [];
    } else {
      var place := PlaceFound(v, tokens[k]);
      var rest := PlacesFound(ChildAt(v, place), tokens, k + 1, x);
      places := [place] + rest;
      assert places[1..] == rest;
    }
  }

  ghost predicate Leads(v: Value, tokens: seq<Token>, x: Value) {
    exists places :: LeadsTo(v, tokens, 0, places, x)
  }

  /** A pointer resolves exactly to the value that its tokens lead to. */
  lemma GetExactly(v: Value, tokens: seq<Token>, x: Value)
    requires forall i | 0 <= i < |tokens| :: tokens[i].index <= INVALID_INDEX
    ensures Get(v, tokens) == Some(x) <==> Leads(v, tokens, x)
  {
    if Leads(v, tokens, x) {
      var places :| LeadsTo(v, tokens, 0, places, x);
      LedTo(v, tokens, 0, places, x);
    }
    if Get(v, tokens) == Some(x) {
      var places := PlacesFound(v, tokens, 0, x);
      assert Leads(v, tokens, x);
    }
  }

  /** The tokens before the first unresolved one resolve, and with it they do not. */
  lemma {:induction false} UnresolvedExactly(v: Value, tokens: seq<Token>, k: nat)
    requires k <= |tokens|
    ensures
      var u := Unresolved(v, tokens, k);
      && Get(v, tokens[..u], k).Some?
      && (u < |tokens| ==> Get(v, tokens[..u + 1], k).None?)
    decreases |tokens| - k
  {
    if k < |tokens| && Child(v, tokens[k]).Some? {
      UnresolvedExactly(Child(v, tokens[k]).value, tokens, k + 1);
    }
  }

  // ---------------------------------------------------------------- Creating

  function Nulls(n: nat): (s: seq<Value>)
    ensures |s| == n && forall i | 0 <= i < n :: s[i] == NullValue
  {
    seq(n, _ => NullValue)
  }

  /** The container a token needs: a name asks for an object, an index for either kind. */
  function Container(v: Value, t: Token): (c: Value)
    ensures c.ArrayValue? || c.ObjectValue?
    ensures t.index == INVALID_INDEX ==> c.ObjectValue?
  {
    if t.index == INVALID_INDEX then (if v.ObjectValue? then v else ObjectValue([]))
    else if v.ArrayValue? || v.ObjectValue? then v
    else ArrayValue([])
  }

  /** A dash given to an array appends, unlike any other name. */
  predicate Appends(v: Value, t: Token) {
    v.ArrayValue? && t.name == DASH
  }

  /** The value with room for the token's child, which is null when it is new. */
  function WithChild(v: Value, t: Token): (r: Value)
  {
    if Appends(v, t) then ArrayValue(v.elements + [NullValue])
    else
      match Container(v, t)
      case ArrayValue(elements) =>
        if t.index >= |elements| then ArrayValue(elements + Nulls(t.index + 1 - |elements|)) else ArrayValue(elements)
      case ObjectValue(members) =>
        if FindMember(members, t.name).None? then ObjectValue(members + [Member(t.name, NullValue)])
        else ObjectValue(members)
      case _ => v
  }

  /** Where the token's child stands in `WithChild`. */
  function Place(v: Value, t: Token): nat {
    var r := WithChild(v, t);
    if Appends(v, t) then |v.elements|
    else if r.ArrayValue? then t.index
    else if r.ObjectValue? && FindMember(r.members, t.name).Some? then FindMember(r.members, t.name).value
    else 0
  }

  lemma PlaceIsInside(v: Value, t: Token)
    ensures var r := WithChild(v, t);
      (r.ArrayValue? && Place(v, t) < |r.elements|) || (r.ObjectValue? && Place(v, t) < |r.members|)
  {
    var c := Container(v, t);
    if !Appends(v, t) && c.ObjectValue? && FindMember(c.members, t.name).None? {
      var r := WithChild(v, t);
      assert r.members[|c.members|].name == t.name;
    }
  }

  function ChildAt(r: Value, p: nat): Value {
    if r.ArrayValue? && p < |r.elements| then r.elements[p]
    else if r.ObjectValue? && p < |r.members| then r.members[p].value
    else NullValue
  }

  function Replaced(r: Value, p: nat, x: Value): Value {
    if r.ArrayValue? && p < |r.elements| then ArrayValue(r.elements[p := x])
    else if r.ObjectValue? && p < |r.members| then ObjectValue(r.members[p := Member(r.members[p].name, x)])
    else r
  }

  /** The value after creating, and whether everything was there before. */
  function Create(v: Value, tokens: seq<Token>, k: nat := 0): (r: (Value, bool))
    requires k <= |tokens|
    decreases |tokens| - k
  {
    if k == |tokens| then (v, true)
    else
      var t := tokens[k];
      var room, p := WithChild(v, t), Place(v, t);
      var below := Create(ChildAt(room, p), tokens, k + 1);
      (Replaced(room, p, below.0), below.1 && Child(v, t).Some? && !Appends(v, t))
  }

  /** A dash meets an array on the way through what exists. */
  ghost predicate DashOnArray(v: Value, tokens: seq<Token>, k: nat := 0)
    requires k <= |tokens|
    decreases |tokens| - k
  {
    k < |tokens|
    && (Appends(v, tokens[k])
        || (Child(v, tokens[k]).Some? && DashOnArray(Child(v, tokens[k]).value, tokens, k + 1)))
  }

  lemma DashIsNoIndex()
    ensures IndexOf(DASH) == INVALID_INDEX
  {
    assert !IsDigit(DASH[0]);
  }

  lemma FindMemberIs(members: seq<Member>, name: bytes, i: nat)
    requires i < |members| && members[i].name == name && forall k | 0 <= k < i :: members[k].name != name
    ensures FindMember(members, name) == Some(i)
  {
  }

  /** A child that exists stays where it is, and the value needs no room. */
  lemma ChildStays(v: Value, t: Token)
    requires t.index == IndexOf(t.name) && Child(v, t).Some?
    ensures !Appends(v, t) && WithChild(v, t) == v && ChildAt(v, Place(v, t)) == Child(v, t).value
    ensures Replaced(v, Place(v, t), Child(v, t).value) == v
  {
    DashIsNoIndex();
    PlaceIsInside(v, t);
  }

  /** A child that did not exist is there afterwards, null, unless a dash was given to an array. */
  lemma ChildMade(v: Value, t: Token, x: Value)
    requires t.index == IndexOf(t.name) && Child(v, t).None?
    ensures ChildAt(WithChild(v, t), Place(v, t)) == NullValue
    ensures !Appends(v, t) ==> Child(Replaced(WithChild(v, t), Place(v, t), x), t) == Some(x)
    ensures Appends(v, t) ==> Child(Replaced(WithChild(v, t), Place(v, t), x), t).None?
  {
    DashIsNoIndex();
    PlaceIsInside(v, t);
    var c := Container(v, t);
    if !Appends(v, t) && c.ObjectValue? {
      var members := c.members + [Member(t.name, NullValue)];
      FindMemberIs(members, t.name, |c.members|);
      FindMemberIs(members[|c.members| := Member(t.name, x)], t.name, |c.members|);
    }
  }

  /** Where an existing child stands. */
  function ChildIndex(v: Value, t: Token): (r: Option<nat>)
    ensures r.Some? <==> Child(v, t).Some?
    ensures r.Some? ==> Child(v, t) == Some(ChildAt(v, r.value))
  {
    match v
    case ObjectValue(members) => FindMember(members, t.name)
    case ArrayValue(elements) => if t.index != INVALID_INDEX && t.index < |elements| then Some(t.index) else None
    case _ => None
  }

  lemma FindMemberSame(members: seq<Member>, p: nat, x: Value, name: bytes)
    requires p < |members|
    ensures FindMember(members[p := Member(members[p].name, x)], name) == FindMember(members, name)
  {
    var changed := members[p := Member(members[p].name, x)];
    if FindMember(members, name).Some? {
      FindMemberIs(changed, name, FindMember(members, name).value);
    }
  }

  /** Replacing one child is seen there and nowhere else. */
  lemma ReplacedChild(v: Value, t: Token, u: Token, x: Value)
    requires ChildIndex(v, t).Some? && ChildIndex(v, u).Some?
    ensures Child(Replaced(v, ChildIndex(v, t).value, x), u)
      == if ChildIndex(v, u) == ChildIndex(v, t) then Some(x) else Child(v, u)
  {
    if v.ObjectValue? {
      FindMemberSame(v.members, ChildIndex(v, t).value, x, u.name);
    }
  }

  lemma PlaceIsIndex(v: Value, t: Token)
    requires t.index == IndexOf(t.name) && Child(v, t).Some?
    ensures ChildIndex(v, t) == Some(Place(v, t))
  {
    ChildStays(v, t);
  }

  /** From null on, creating always ends in the new null value. */
  lemma {:induction false} CreateFromNull(tokens: seq<Token>, k: nat)
    requires k <= |tokens| && Indexed(tokens)
    ensures Get(Create(NullValue, tokens, k).0, tokens, k) == Some(NullValue)
    decreases |tokens| - k
  {
    if k < |tokens| {
      var t := tokens[k];
      CreateFromNull(tokens, k + 1);
      ChildMade(NullValue, t, Create(NullValue, tokens, k + 1).0);
    }
  }

  /**
   Creating reports exactly whether the pointer resolved before, and then changes nothing. Otherwise the pointer
   resolves to the new null value afterwards, unless a dash met an array: then it still does not resolve.
   */
  lemma {:induction false} CreateAgainstGet(v: Value, tokens: seq<Token>, k: nat)
    requires k <= |tokens| && Indexed(tokens)
    ensures var r := Create(v, tokens, k);
      && (r.1 <==> Get(v, tokens, k).Some?)
      && (r.1 ==> r.0 == v)
      && (!r.1 ==> Get(r.0, tokens, k) == if DashOnArray(v, tokens, k) then None else Some(NullValue))
    decreases |tokens| - k
  {
    if k < |tokens| {
      var t := tokens[k];
      var child := Child(v, t);
      if child.Some? {
        ChildStays(v, t);
        PlaceIsIndex(v, t);
        CreateAgainstGet(child.value, tokens, k + 1);
        ReplacedChild(v, t, t, Create(child.value, tokens, k + 1).0);
      } else {
        CreateFromNull(tokens, k + 1);
        ChildMade(v, t, Create(NullValue, tokens, k + 1).0);
      }
    }
  }

  /** A child that did not exist is created from null, and one that did from itself. */
  lemma Below(v: Value, tokens: seq<Token>, k: nat)
    requires k < |tokens| && Indexed(tokens)
    ensures
      var t := tokens[k];
      var child := if Child(v, t).Some? then Child(v, t).value else NullValue;
      Create(v, tokens, k).0 == Replaced(WithChild(v, t), Place(v, t), Create(child, tokens, k + 1).0)
  {
    var t := tokens[k];
    if Child(v, t).Some? {
      ChildStays(v, t);
    } else {
      ChildMade(v, t, NullValue);
    }
  }

  /**
   What creating makes of an object: the member of the name changes, or a new one is the last; what is neither object
   nor array gives way to an object of one member.
   */
  lemma CreatedMember(v: Value, tokens: seq<Token>, k: nat)
    requires k < |tokens| && Indexed(tokens) && !v.ArrayValue?
    requires v.ObjectValue? || tokens[k].index == INVALID_INDEX
    ensures
      var members := if v.ObjectValue? then v.members else [];
      var name := tokens[k].name;
      var r := Create(v, tokens, k).0;
      r.ObjectValue? &&
      if forall j | 0 <= j < |members| :: members[j].name != name then
        r.members == members + [Member(name, Create(NullValue, tokens, k + 1).0)]
      else
        exists i | 0 <= i < |members| ::
          && members[i].name == name && (forall j | 0 <= j < i :: members[j].name != name)
          && r.members == members[i := Member(name, Create(members[i].value, tokens, k + 1).0)]
  {
    var t := tokens[k];
    var members := if v.ObjectValue? then v.members else [];
    Below(v, tokens, k);
    if FindMember(members, t.name).None? {
      FindMemberIs(members + [Member(t.name, NullValue)], t.name, |members|);
    }
  }

  /**
   What creating makes of an array: elements up to the index are there, null where there were none, or one more for
   a dash; what is neither object nor array gives way to an array that ends at the index.
   */
  lemma CreatedElement(v: Value, tokens: seq<Token>, k: nat)
    requires k < |tokens| && Indexed(tokens) && !v.ObjectValue?
    requires tokens[k].index != INVALID_INDEX || (v.ArrayValue? && tokens[k].name == [0x2D])
    ensures
      var elements := if v.ArrayValue? then v.elements else [];
      var i := if tokens[k].index != INVALID_INDEX then tokens[k].index else |elements|;
      var r := Create(v, tokens, k).0;
      && r.ArrayValue? && |r.elements| == (if i < |elements| then |elements| else i + 1)
      && r.elements[i] == Create(if i < |elements| then elements[i] else NullValue, tokens, k + 1).0
      && forall j | 0 <= j < |r.elements| && j != i ::
           r.elements[j] == if j < |elements| then elements[j] else NullValue
  {
    DashIsNoIndex();
    Below(v, tokens, k);
  }

  /** A name, unless it is a dash, turns an array into an object of one member. */
  lemma CreatedOverArray(v: Value, tokens: seq<Token>, k: nat)
    requires k < |tokens| && Indexed(tokens) && v.ArrayValue?
    requires tokens[k].index == INVALID_INDEX && tokens[k].name != [0x2D]
    ensures Create(v, tokens, k).0 ==
      ObjectValue([Member(tokens[k].name, Create(NullValue, tokens, k + 1).0)])
  {
    Below(v, tokens, k);
    FindMemberIs([Member(tokens[k].name, NullValue)], tokens[k].name, 0);
  }

  /** Two pointers part at `j`: they agree before it, and there they pick different children of one container. */
  ghost predicate PartAt(v: Value, a: seq<Token>, b: seq<Token>, k: nat, j: nat)
    requires k <= j < |a| && j < |b|
    decreases j - k
  {
    ChildIndex(v, a[k]).Some? && ChildIndex(v, b[k]).Some?
    && if k == j then ChildIndex(v, a[k]) != ChildIndex(v, b[k])
       else a[k] == b[k] && PartAt(Child(v, a[k]).value, a, b, k + 1, j)
  }

  /** Whatever a pointer finds that parts from the path before its first unresolved token, it finds unchanged. */
  lemma {:induction false} CreateElsewhere(v: Value, tokens: seq<Token>, other: seq<Token>, k: nat, j: nat)
    requires k <= j < |tokens| && j < |other| && Indexed(tokens) && PartAt(v, tokens, other, k, j)
    ensures Get(Create(v, tokens, k).0, other, k) == Get(v, other, k)
    decreases j - k
  {
    var t := tokens[k];
    var child := Child(v, t).value;
    var below := Create(child, tokens, k + 1).0;
    ChildStays(v, t);
    PlaceIsIndex(v, t);
    ReplacedChild(v, t, other[k], below);
    if k < j {
      CreateElsewhere(child, tokens, other, k + 1, j);
    }
  }
}
