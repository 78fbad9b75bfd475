/**
 Every legal history of writer calls describes a value, and what is written is that value's text. The counts that
 come with the ends of containers play no part in it.
 */
module WriterHistory {
  import opened Bytes
  import opened Sax
  import opened Strings
  import opened Numbers
  import opened Dom
  import opened Layout
  import opened Writer
  import opened WriterMeaning
  import WhiteSpace
  import ReadBack
  import Descent

  /** A container that is not closed yet; an object may hold a name whose value is still to come. */
  datatype Open =
    | OpenArray(elements: seq<Value>)
    | OpenObject(members: seq<Member>, pending: Option<bytes>)

  datatype Draft = Draft(open: seq<Open>, root: Option<Value>)

  /** The container with one more value. */
  function Added(o: Open, v: Value): Open {
    match o
    case OpenArray(elements) => OpenArray(elements + [v])
    case OpenObject(members, Some(name)) => OpenObject(members + [Member(name, v)], None)
    case OpenObject(_, None) => o
  }

  function Placed(d: Draft, v: Value): Draft {
    if d.open == [] then Draft([], Some(v))
    else Draft(d.open[..|d.open| - 1] + [Added(d.open[|d.open| - 1], v)], d.root)
  }

  function Closed(o: Open): Value {
    match o
    case OpenArray(elements) => ArrayValue(elements)
    case OpenObject(members, _) => ObjectValue(members)
  }

  /** The value of an event that is no container. */
  ghost function LeafOf(e: Event): Value {
    match e
    case Bool(b) => BoolValue(b)
    case String(s) => StringValue(s)
    case Key(s) => StringValue(s)
    case _ =>
      match EventInt(e)
      case Some(i) => Canonical(i)
      case None => NullValue
  }

  /** The innermost container is an object between members. */
  predicate AwaitsName(open: seq<Open>) {
    open != [] && open[|open| - 1].OpenObject? && open[|open| - 1].pending.None?
  }

  /** What is described after one more event. */
  ghost function Describe(d: Draft, e: Event): Draft {
    var n := |d.open|;
    if e.EndArray? || e.EndObject? then
      (if n == 0 then d else Placed(Draft(d.open[..n - 1], d.root), Closed(d.open[n - 1])))
    else if e.StartArray? then Draft(d.open + [OpenArray([])], d.root)
    else if e.StartObject? then Draft(d.open + [OpenObject([], None)], d.root)
    else if AwaitsName(d.open) && IsString(e) then
      Draft(d.open[..n - 1] + [d.open[n - 1].(pending := Some(if e.String? then e.str else e.name))], d.root)
    else Placed(d, LeafOf(e))
  }

  ghost function Described(events: seq<Event>): Draft
    decreases |events|
  {
    if events == [] then Draft([], None)
    else Describe(Described(events[..|events| - 1]), events[|events| - 1])
  }

  // ---------------------------------------------------------------- The text of a draft

  function LevelOf(o: Open): Level {
    match o
    case OpenArray(elements) => Level(true, |elements|)
    case OpenObject(members, pending) => Level(false, 2 * |members| + if pending.Some? then 1 else 0)
  }

  /** The levels of the writer: every container but the innermost already counts the one inside it. */
  function LevelsOf(open: seq<Open>): seq<Level>
    decreases |open|
  {
    if open == [] then []
    else Counted(LevelsOf(open[..|open| - 1])) + [LevelOf(open[|open| - 1])]
  }

  ghost predicate Good(target: Target, v: Value) {
    WellFormed(v) && Printable(target, v)
  }

  /** Everything in the container can be printed. */
  ghost predicate GoodOpen(target: Target, o: Open) {
    match o
    case OpenArray(elements) => forall k | 0 <= k < |elements| :: Good(target, elements[k])
    case OpenObject(members, pending) =>
      && (forall k | 0 <= k < |members| :: Writable(target, members[k].name) && Good(target, members[k].value))
      && (pending.Some? ==> Writable(target, pending.value))
  }

  function Size(o: Open): nat {
    match o
    case OpenArray(elements) => |elements|
    case OpenObject(members, _) => |members|
  }

  /** No container holds more than `limit` values. */
  ghost predicate Small(open: seq<Open>, limit: nat) {
    forall k | 0 <= k < |open| :: Size(open[k]) <= limit
  }

  /** A container around another one waits for a value, not a name. */
  ghost predicate GoodDraft(target: Target, open: seq<Open>)
    decreases |open|
  {
    open != [] ==>
      && GoodOpen(target, open[|open| - 1])
      && GoodDraft(target, open[..|open| - 1])
      && (|open| > 1 ==> !AwaitsName(open[..|open| - 1]))
  }

  ghost function ElementsText(st: Style, elements: seq<Value>, depth: nat): bytes
    requires forall k | 0 <= k < |elements| :: Printable(st.target, elements[k])
    decreases |elements|
  {
    if elements == [] then []
    else
      ElementsText(st, elements[..|elements| - 1], depth) + PrintElement(st, elements, |elements| - 1, depth)
  }

  ghost function MembersText(st: Style, members: seq<Member>, depth: nat): bytes
    requires forall k | 0 <= k < |members| ::
      Writable(st.target, members[k].name) && Printable(st.target, members[k].value)
    decreases |members|
  {
    if members == [] then []
    else MembersText(st, members[..|members| - 1], depth) + PrintMember(st, members, |members| - 1, depth)
  }

  /** An open container's text from its bracket on. */
  ghost function OpenText(st: Style, o: Open, depth: nat): bytes
    requires GoodOpen(st.target, o)
  {
    match o
    case OpenArray(elements) => [LEFT_BRACKET] + ElementsText(st, elements, depth)
    case OpenObject(members, None) => [LEFT_CURLY] + MembersText(st, members, depth)
    case OpenObject(members, Some(name)) =>
      [LEFT_CURLY] + MembersText(st, members, depth)
      + (Separator(|members| > 0) + Newline(st.format, depth) + Quoted(st.target, name))
  }

  ghost function DraftText(st: Style, open: seq<Open>): bytes
    requires GoodDraft(st.target, open)
    decreases |open|
  {
    if open == [] then []
    else
      var outer := open[..|open| - 1];
      DraftText(st, outer) + Lead(st.format, LevelsOf(outer)) + OpenText(st, open[|open| - 1], |open|)
  }

  /** The writer inside open containers: levels and text are the draft's. */
  ghost predicate HoldsOpen(st: Style, w: State, open: seq<Open>, limit: nat) {
    && GoodDraft(st.target, open)
    && Small(open, limit)
    && w.levels == LevelsOf(open)
    && w.hasRoot
    && w.out == DraftText(st, open)
  }

  /** The writer before or after the root. */
  ghost predicate HoldsRoot(st: Style, w: State, root: Option<Value>) {
    && w.levels == []
    && w.hasRoot == root.Some?
    && (root.Some? ==> Good(st.target, root.value))
    && w.out == if root.Some? then Print(st, root.value, 0) else []
  }

  /** The writer's state is the state of the draft. */
  ghost predicate Holds(st: Style, w: State, d: Draft, limit: nat) {
    if d.open == [] then HoldsRoot(st, w, d.root) else d.root.None? && HoldsOpen(st, w, d.open, limit)
  }

  // ---------------------------------------------------------------- One event

  lemma {:induction false} LevelsLength(open: seq<Open>)
    ensures |LevelsOf(open)| == |open|
    ensures open != [] ==> LevelsOf(open)[|open| - 1] == LevelOf(open[|open| - 1])
    decreases |open|
  {
    if open != [] {
      LevelsLength(open[..|open| - 1]);
    }
  }

  lemma AddElementText(st: Style, elements: seq<Value>, v: Value, depth: nat)
    requires (forall k | 0 <= k < |elements| :: Printable(st.target, elements[k])) && Printable(st.target, v)
    ensures ElementsText(st, elements + [v], depth) == ElementsText(st, elements, depth)
      + (Separator(|elements| > 0) + ElementGap(st.format, depth, |elements| > 0) + Print(st, v, depth))
  {
    assert (elements + [v])[..|elements|] == elements;
  }

  lemma AddMemberText(st: Style, members: seq<Member>, m: Member, depth: nat)
    requires forall k | 0 <= k < |members| ::
      Writable(st.target, members[k].name) && Printable(st.target, members[k].value)
    requires Writable(st.target, m.name) && Printable(st.target, m.value)
    ensures MembersText(st, members + [m], depth) == MembersText(st, members, depth)
      + (Separator(|members| > 0) + Newline(st.format, depth) + Quoted(st.target, m.name) + [COLON]
         + ColonGap(st.format) + Print(st, m.value, depth))
  {
    assert (members + [m])[..|members|] == members;
  }

  /** What the lead of a value is, from the container that gets the value. */
  lemma LeadInArray(f: Format, open: seq<Open>)
    requires open != [] && open[|open| - 1].OpenArray?
    ensures var later := |open[|open| - 1].elements| > 0;
      Lead(f, LevelsOf(open)) == Separator(later) + ElementGap(f, |open|, later)
  {
    LevelsLength(open);
  }

  lemma LeadAfterName(f: Format, open: seq<Open>)
    requires open != [] && open[|open| - 1].OpenObject? && open[|open| - 1].pending.Some?
    ensures Lead(f, LevelsOf(open)) == [COLON] + ColonGap(f)
  {
    LevelsLength(open);
    NameIsOdd(open[|open| - 1]);
    OddLead(f, LevelsOf(open));
  }

  lemma NameIsOdd(o: Open)
    requires o.OpenObject?
    ensures LevelOf(o).valueCount % 2 == (if o.pending.Some? then 1 else 0)
  {
  }

  lemma OddLead(f: Format, levels: seq<Level>)
    requires levels != [] && !levels[|levels| - 1].inArray && levels[|levels| - 1].valueCount % 2 == 1
    ensures Lead(f, levels) == [COLON] + ColonGap(f)
  {
  }

  lemma LeadBeforeName(f: Format, open: seq<Open>)
    requires open != [] && open[|open| - 1].OpenObject? && open[|open| - 1].pending.None?
    ensures Lead(f, LevelsOf(open)) == Separator(|open[|open| - 1].members| > 0) + Newline(f, |open|)
  {
    LevelsLength(open);
  }

  /** A value added to an array extends the array's text by the lead and the value. */
  lemma AddedToArray(st: Style, o: Open, v: Value, lead: bytes, depth: nat)
    requires o.OpenArray? && GoodOpen(st.target, o) && Good(st.target, v)
    requires lead == Separator(|o.elements| > 0) + ElementGap(st.format, depth, |o.elements| > 0)
    ensures GoodOpen(st.target, Added(o, v))
    ensures OpenText(st, Added(o, v), depth) == OpenText(st, o, depth) + lead + Print(st, v, depth)
  {
    AddElementText(st, o.elements, v, depth);
    ArrayConcat([LEFT_BRACKET], ElementsText(st, o.elements, depth), lead, Print(st, v, depth));
  }

  /** A value that follows a name extends the object's text by the lead and the value. */
  lemma AddedToObject(st: Style, o: Open, v: Value, lead: bytes, depth: nat)
    requires o.OpenObject? && o.pending.Some? && GoodOpen(st.target, o) && Good(st.target, v)
    requires lead == [COLON] + ColonGap(st.format)
    ensures GoodOpen(st.target, Added(o, v))
    ensures OpenText(st, Added(o, v), depth) == OpenText(st, o, depth) + lead + Print(st, v, depth)
  {
    AddMemberText(st, o.members, Member(o.pending.value, v), depth);
    ObjectConcat([LEFT_CURLY], MembersText(st, o.members, depth), Separator(|o.members| > 0),
      Newline(st.format, depth), Quoted(st.target, o.pending.value), [COLON], ColonGap(st.format), Print(st, v, depth));
  }

  lemma AddedText(st: Style, open: seq<Open>, o: Open, v: Value, lead: bytes)
    requires open != [] && o == open[|open| - 1] && lead == Lead(st.format, LevelsOf(open))
    requires GoodOpen(st.target, o) && Good(st.target, v) && !AwaitsName(open)
    ensures GoodOpen(st.target, Added(o, v))
    ensures OpenText(st, Added(o, v), |open|) == OpenText(st, o, |open|) + lead + Print(st, v, |open|)
  {
    if o.OpenArray? {
      LeadInArray(st.format, open);
      AddedToArray(st, o, v, lead, |open|);
    } else {
      LeadAfterName(st.format, open);
      AddedToObject(st, o, v, lead, |open|);
    }
  }

  lemma ArrayConcat(a: bytes, b: bytes, c: bytes, d: bytes)
    ensures a + (b + (c + d)) == a + b + c + d
  {
  }

  lemma ObjectConcat(a: bytes, b: bytes, c: bytes, d: bytes, e: bytes, f: bytes, g: bytes, h: bytes)
    ensures a + (b + (c + d + e + f + g + h)) == a + b + (c + d + e) + (f + g) + h
  {
  }

  // ---------------------------------------------------------------- The innermost container

  lemma InnerLevels(outer: seq<Open>, o: Open)
    ensures LevelsOf(outer + [o]) == Counted(LevelsOf(outer)) + [LevelOf(o)]
  {
    assert (outer + [o])[..|outer|] == outer;
  }

  lemma InnerGood(target: Target, outer: seq<Open>, o: Open)
    ensures GoodDraft(target, outer + [o])
      <==> GoodOpen(target, o) && GoodDraft(target, outer) && !AwaitsName(outer)
  {
    assert (outer + [o])[..|outer|] == outer;
  }

  lemma InnerText(st: Style, outer: seq<Open>, o: Open)
    requires GoodDraft(st.target, outer + [o])
    ensures GoodDraft(st.target, outer) && GoodOpen(st.target, o)
    ensures DraftText(st, outer + [o])
      == DraftText(st, outer) + Lead(st.format, LevelsOf(outer)) + OpenText(st, o, |outer| + 1)
  {
    InnerGood(st.target, outer, o);
    assert (outer + [o])[..|outer|] == outer;
  }

  /** A container that grows by a text makes the whole grow by the text. */
  lemma GrownText(st: Style, outer: seq<Open>, o: Open, grown: Open, lead: bytes, text: bytes)
    requires GoodDraft(st.target, outer + [o]) && GoodOpen(st.target, o) && GoodOpen(st.target, grown)
    requires OpenText(st, grown, |outer| + 1) == OpenText(st, o, |outer| + 1) + lead + text
    ensures GoodDraft(st.target, outer + [grown])
    ensures DraftText(st, outer + [grown]) == DraftText(st, outer + [o]) + lead + text
  {
    InnerGood(st.target, outer, o);
    InnerGood(st.target, outer, grown);
    InnerText(st, outer, o);
    InnerText(st, outer, grown);
    LiteralConcat(DraftText(st, outer) + Lead(st.format, LevelsOf(outer)), OpenText(st, o, |outer| + 1), lead, text);
  }

  lemma GrownLevels(outer: seq<Open>, o: Open, grown: Open)
    requires LevelOf(grown) == LevelOf(o).(valueCount := LevelOf(o).valueCount + 1)
    ensures LevelsOf(outer + [grown]) == Counted(LevelsOf(outer + [o]))
  {
    InnerLevels(outer, o);
    InnerLevels(outer, grown);
    CountedLast(Counted(LevelsOf(outer)), LevelOf(o));
  }

  lemma CountedLast(levels: seq<Level>, top: Level)
    ensures Counted(levels + [top]) == levels + [top.(valueCount := top.valueCount + 1)]
  {
  }

  lemma AllowsIsNotName(open: seq<Open>, hasRoot: bool)
    requires open != [] && AllowsValue(LevelsOf(open), hasRoot, false)
    ensures !AwaitsName(open)
  {
    LevelsLength(open);
    if open[|open| - 1].OpenObject? {
      NameIsOdd(open[|open| - 1]);
    }
  }

  lemma NotNameAllows(open: seq<Open>)
    requires open != [] && !AwaitsName(open)
    ensures AllowsValue(LevelsOf(open), true, false)
  {
    LevelsLength(open);
    if open[|open| - 1].OpenObject? {
      NameIsOdd(open[|open| - 1]);
    }
  }

  // ---------------------------------------------------------------- A value is complete

  /** The container around a value takes it up, in the draft and in the text. */
  lemma TakenUp(st: Style, outer: seq<Open>, o: Open, v: Value)
    requires GoodDraft(st.target, outer + [o]) && !AwaitsName(outer + [o]) && Good(st.target, v)
    ensures var lead := Lead(st.format, LevelsOf(outer + [o]));
      && GoodDraft(st.target, outer + [Added(o, v)])
      && DraftText(st, outer + [Added(o, v)])
        == DraftText(st, outer + [o]) + lead + Print(st, v, |outer| + 1)
    ensures LevelsOf(outer + [Added(o, v)]) == Counted(LevelsOf(outer + [o]))
  {
    var lead := Lead(st.format, LevelsOf(outer + [o]));
    InnerGood(st.target, outer, o);
    AddedText(st, outer + [o], o, v, lead);
    GrownText(st, outer, o, Added(o, v), lead, Print(st, v, |outer| + 1));
    GrownLevels(outer, o, Added(o, v));
  }

  lemma SmallGrown(outer: seq<Open>, o: Open, grown: Open, limit: nat)
    requires Small(outer + [o], limit) && Size(grown) <= Size(o) + 1
    ensures Small(outer + [grown], limit + 1)
  {
    assert (outer + [o])[|outer|] == o;
    forall k | 0 <= k < |outer + [grown]|
      ensures Size((outer + [grown])[k]) <= limit + 1
    {
      assert k < |outer| ==> (outer + [o])[k] == outer[k];
    }
  }

  lemma PlacedInside(st: Style, w: State, outer: seq<Open>, o: Open, v: Value, limit: nat, w': State)
    requires HoldsOpen(st, w, outer + [o], limit) && Good(st.target, v)
    requires AllowsValue(w.levels, w.hasRoot, false) && w' == Wrote(st, w, Print(st, v, |outer| + 1))
    ensures HoldsOpen(st, w', outer + [Added(o, v)], limit + 1)
  {
    AllowsIsNotName(outer + [o], w.hasRoot);
    TakenUp(st, outer, o, v);
    SmallGrown(outer, o, Added(o, v), limit);
  }

  lemma PlacedAtRoot(st: Style, w: State, v: Value, w': State)
    requires HoldsRoot(st, w, None) && Good(st.target, v) && w' == Wrote(st, w, Print(st, v, 0))
    ensures HoldsRoot(st, w', Some(v))
  {
    assert w'.out == Print(st, v, 0);
  }

  lemma PlacedIs(d: Draft, v: Value) returns (outer: seq<Open>, o: Open)
    requires d.open != []
    ensures d.open == outer + [o] && Placed(d, v) == Draft(outer + [Added(o, v)], d.root)
  {
    outer, o := d.open[..|d.open| - 1], d.open[|d.open| - 1];
  }

  /** A whole value, whether it is an event's or a container's that was just closed. */
  lemma PlacedHolds(st: Style, w: State, d: Draft, v: Value, limit: nat, w': State)
    requires Holds(st, w, d, limit) && Good(st.target, v) && AllowsValue(w.levels, w.hasRoot, false)
    requires w' == Wrote(st, w, Print(st, v, |d.open|))
    ensures Holds(st, w', Placed(d, v), limit + 1)
  {
    if d.open == [] {
      PlacedAtRoot(st, w, v, w');
    } else {
      var outer, o := PlacedIs(d, v);
      PlacedInside(st, w, outer, o, v, limit, w');
    }
  }

  lemma NameText(st: Style, o: Open, name: bytes, depth: nat)
    requires o.OpenObject? && o.pending.None? && GoodOpen(st.target, o) && Writable(st.target, name)
    ensures OpenText(st, o.(pending := Some(name)), depth) == OpenText(st, o, depth)
      + (Separator(|o.members| > 0) + Newline(st.format, depth)) + Quoted(st.target, name)
  {
    TextConcat([LEFT_CURLY] + MembersText(st, o.members, depth),
      Separator(|o.members| > 0) + Newline(st.format, depth), Quoted(st.target, name));
  }

  lemma NameTakenUp(st: Style, outer: seq<Open>, o: Open, name: bytes)
    requires GoodDraft(st.target, outer + [o]) && AwaitsName(outer + [o]) && Writable(st.target, name)
    ensures var lead, named := Lead(st.format, LevelsOf(outer + [o])), o.(pending := Some(name));
      && GoodDraft(st.target, outer + [named])
      && DraftText(st, outer + [named]) == DraftText(st, outer + [o]) + lead + Quoted(st.target, name)
      && LevelsOf(outer + [named]) == Counted(LevelsOf(outer + [o]))
  {
    InnerGood(st.target, outer, o);
    LeadBeforeName(st.format, outer + [o]);
    NameText(st, o, name, |outer| + 1);
    GrownText(st, outer, o, o.(pending := Some(name)), Lead(st.format, LevelsOf(outer + [o])),
      Quoted(st.target, name));
    GrownLevels(outer, o, o.(pending := Some(name)));
  }

  lemma NamedInside(st: Style, w: State, outer: seq<Open>, o: Open, name: bytes, limit: nat, w': State)
    requires HoldsOpen(st, w, outer + [o], limit) && AwaitsName(outer + [o]) && Writable(st.target, name)
    requires w' == Wrote(st, w, Quoted(st.target, name))
    ensures HoldsOpen(st, w', outer + [o.(pending := Some(name))], limit + 1)
  {
    NameTakenUp(st, outer, o, name);
    SmallGrown(outer, o, o.(pending := Some(name)), limit);
  }

  function NameOf(e: Event): bytes
    requires IsString(e)
  {
    if e.String? then e.str else e.name
  }

  lemma WriteNameIs(st: Style, w: State, e: Event)
    requires IsString(e) && Write(st, w, e).Some?
    ensures Writable(st.target, NameOf(e)) && Write(st, w, e).value == Wrote(st, w, Quoted(st.target, NameOf(e)))
  {
  }

  /** The name of a member. */
  lemma NameHolds(st: Style, w: State, d: Draft, e: Event, limit: nat)
    requires Holds(st, w, d, limit) && AwaitsName(d.open) && IsString(e) && Write(st, w, e).Some?
    ensures Holds(st, Write(st, w, e).value, Describe(d, e), limit + 1)
  {
    var outer, o := d.open[..|d.open| - 1], d.open[|d.open| - 1];
    assert d.open == outer + [o];
    WriteNameIs(st, w, e);
    NamedInside(st, w, outer, o, NameOf(e), limit, Write(st, w, e).value);
    assert Describe(d, e) == Draft(outer + [o.(pending := Some(NameOf(e)))], d.root);
  }

  // ---------------------------------------------------------------- Containers

  function Fresh(e: Event): Open {
    if e.StartArray? then OpenArray([]) else OpenObject([], None)
  }

  lemma FreshText(st: Style, e: Event, depth: nat)
    requires e.StartArray? || e.StartObject?
    ensures GoodOpen(st.target, Fresh(e)) && OpenText(st, Fresh(e), depth) == [Bracket(e)]
    ensures LevelOf(Fresh(e)) == Level(e.StartArray?, 0)
  {
  }

  lemma OpenInside(st: Style, w: State, open: seq<Open>, e: Event, o: Open, limit: nat, w': State)
    requires GoodDraft(st.target, open) && !AwaitsName(open) && w.out == DraftText(st, open)
    requires w.levels == LevelsOf(open) && Small(open, limit)
    requires (e.StartArray? || e.StartObject?) && o == Fresh(e) && w' == Opened(st, w, e)
    ensures HoldsOpen(st, w', open + [o], limit + 1)
  {
    FreshText(st, e, |open| + 1);
    InnerGood(st.target, open, o);
    InnerLevels(open, o);
    InnerText(st, open, o);
    SmallOpened(open, o, limit);
  }

  lemma SmallOpened(open: seq<Open>, o: Open, limit: nat)
    requires Small(open, limit) && Size(o) == 0
    ensures Small(open + [o], limit + 1)
  {
  }

  lemma OpenHolds(st: Style, w: State, d: Draft, e: Event, limit: nat)
    requires Holds(st, w, d, limit) && AllowsValue(w.levels, w.hasRoot, false) && (e.StartArray? || e.StartObject?)
    ensures Holds(st, Opened(st, w, e), Describe(d, e), limit + 1)
  {
    if d.open != [] {
      AllowsIsNotName(d.open, w.hasRoot);
    }
    OpenInside(st, w, d.open, e, Fresh(e), limit, Opened(st, w, e));
    assert Describe(d, e) == Draft(d.open + [Fresh(e)], d.root);
  }

  /** Elements by the front meet elements by the back. */
  lemma {:induction false} ElementsMeet(st: Style, elements: seq<Value>, i: nat, depth: nat)
    requires i <= |elements| && depth > 0 && forall k | 0 <= k < |elements| :: Printable(st.target, elements[k])
    ensures ElementsText(st, elements[..i], depth) + PrintElements(st, elements, i, depth)
      == PrintElements(st, elements, 0, depth)
    decreases i
  {
    if i > 0 {
      var front := elements[..i];
      assert front[..i - 1] == elements[..i - 1];
      ElementsMeet(st, elements, i - 1, depth);
      TextConcat(ElementsText(st, elements[..i - 1], depth), PrintElement(st, elements, i - 1, depth),
        PrintElements(st, elements, i, depth));
      assert PrintElement(st, front, i - 1, depth) == PrintElement(st, elements, i - 1, depth);
    }
  }

  lemma {:induction false} MembersMeet(st: Style, members: seq<Member>, i: nat, depth: nat)
    requires i <= |members| && depth > 0
    requires forall k | 0 <= k < |members| ::
      Writable(st.target, members[k].name) && Printable(st.target, members[k].value)
    ensures MembersText(st, members[..i], depth) + PrintMembers(st, members, i, depth)
      == PrintMembers(st, members, 0, depth)
    decreases i
  {
    if i > 0 {
      var front := members[..i];
      assert front[..i - 1] == members[..i - 1];
      MembersMeet(st, members, i - 1, depth);
      TextConcat(MembersText(st, members[..i - 1], depth), PrintMember(st, members, i - 1, depth),
        PrintMembers(st, members, i, depth));
      assert PrintMember(st, front, i - 1, depth) == PrintMember(st, members, i - 1, depth);
    }
  }

  lemma ClosedArrayText(st: Style, o: Open, depth: nat)
    requires o.OpenArray? && GoodOpen(st.target, o) && depth > 0
    ensures OpenText(st, o, depth) + Closing(st.format, LevelOf(o), depth) == Print(st, Closed(o), depth - 1)
  {
    var elements := o.elements;
    assert elements[..|elements|] == elements;
    ElementsMeet(st, elements, |elements|, depth);
    TextConcat([LEFT_BRACKET], ElementsText(st, elements, depth), Closing(st.format, LevelOf(o), depth));
  }

  lemma ClosedObjectText(st: Style, o: Open, depth: nat)
    requires o.OpenObject? && o.pending.None? && GoodOpen(st.target, o) && depth > 0
    ensures OpenText(st, o, depth) + Closing(st.format, LevelOf(o), depth) == Print(st, Closed(o), depth - 1)
  {
    var members := o.members;
    assert members[..|members|] == members;
    MembersMeet(st, members, |members|, depth);
    TextConcat([LEFT_CURLY], MembersText(st, members, depth), Closing(st.format, LevelOf(o), depth));
  }

  lemma ClosedIsGood(target: Target, o: Open)
    requires GoodOpen(target, o) && Size(o) <= MAX_UINT32
    ensures Good(target, Closed(o))
  {
  }

  lemma ClosedText(st: Style, o: Open, depth: nat)
    requires GoodOpen(st.target, o) && depth > 0 && (o.OpenObject? ==> o.pending.None?)
    ensures OpenText(st, o, depth) + Closing(st.format, LevelOf(o), depth) == Print(st, Closed(o), depth - 1)
  {
    if o.OpenArray? {
      ClosedArrayText(st, o, depth);
    } else {
      ClosedObjectText(st, o, depth);
    }
  }

  /** The writer just before the container that now closes was opened. */
  ghost function Around(st: Style, outer: seq<Open>): State
    requires GoodDraft(st.target, outer)
  {
    State(DraftText(st, outer), LevelsOf(outer), outer != [])
  }

  lemma AroundHolds(st: Style, outer: seq<Open>, o: Open, limit: nat)
    requires GoodDraft(st.target, outer + [o]) && Small(outer + [o], limit)
    ensures GoodDraft(st.target, outer)
    ensures Holds(st, Around(st, outer), Draft(outer, None), limit)
    ensures AllowsValue(LevelsOf(outer), outer != [], false)
  {
    InnerGood(st.target, outer, o);
    assert forall k | 0 <= k < |outer| :: (outer + [o])[k] == outer[k];
    if outer != [] {
      NotNameAllows(outer);
    }
  }

  /** Closing a container writes what writing its value whole would have written. */
  lemma CloseInside(st: Style, w: State, outer: seq<Open>, o: Open, e: Event, limit: nat)
    requires HoldsOpen(st, w, outer + [o], limit) && (o.OpenObject? ==> o.pending.None?)
    requires (e.EndArray? || e.EndObject?) && AllowsEnd(w.levels, e.EndArray?)
    ensures GoodDraft(st.target, outer)
    ensures Write(st, w, e) == Some(Wrote(st, Around(st, outer), Print(st, Closed(o), |outer|)))
  {
    InnerLevels(outer, o);
    InnerText(st, outer, o);
    LevelsLength(outer);
    ClosedText(st, o, |outer| + 1);
    TextConcat(DraftText(st, outer) + Lead(st.format, LevelsOf(outer)), OpenText(st, o, |outer| + 1),
      Closing(st.format, LevelOf(o), |outer| + 1));
    LengthOfCounted(LevelsOf(outer));
  }

  lemma LengthOfCounted(levels: seq<Level>)
    ensures |Counted(levels)| == |levels|
  {
  }

  lemma EndHasNoName(w: State, outer: seq<Open>, o: Open, inArray: bool)
    requires w.levels == LevelsOf(outer + [o]) && AllowsEnd(w.levels, inArray)
    ensures o.OpenObject? ==> o.pending.None?
  {
    InnerLevels(outer, o);
    if o.OpenObject? {
      NameIsOdd(o);
    }
  }

  lemma ClosedHolds(st: Style, w: State, outer: seq<Open>, o: Open, e: Event, limit: nat)
    requires HoldsOpen(st, w, outer + [o], limit) && limit <= MAX_UINT32
    requires (e.EndArray? || e.EndObject?) && AllowsEnd(w.levels, e.EndArray?)
    ensures Write(st, w, e).Some?
    ensures Holds(st, Write(st, w, e).value, Placed(Draft(outer, None), Closed(o)), limit + 1)
  {
    EndHasNoName(w, outer, o, e.EndArray?);
    CloseInside(st, w, outer, o, e, limit);
    AroundHolds(st, outer, o, limit);
    InnerGood(st.target, outer, o);
    ClosedIsGood(st.target, o);
    PlacedHolds(st, Around(st, outer), Draft(outer, None), Closed(o), limit, Write(st, w, e).value);
  }

  lemma CloseHolds(st: Style, w: State, d: Draft, e: Event, limit: nat)
    requires Holds(st, w, d, limit) && limit <= MAX_UINT32
    requires (e.EndArray? || e.EndObject?) && AllowsEnd(w.levels, e.EndArray?)
    ensures Write(st, w, e).Some? && Holds(st, Write(st, w, e).value, Describe(d, e), limit + 1)
  {
    DescribeEnd(w, d, e);
    var outer, o := d.open[..|d.open| - 1], d.open[|d.open| - 1];
    ClosedHolds(st, w, outer, o, e, limit);
  }

  lemma DescribeEnd(w: State, d: Draft, e: Event)
    requires w.levels == LevelsOf(d.open) && (d.open != [] ==> d.root.None?)
    requires (e.EndArray? || e.EndObject?) && AllowsEnd(w.levels, e.EndArray?)
    ensures d.open != []
    ensures
      var outer, o := d.open[..|d.open| - 1], d.open[|d.open| - 1];
      d.open == outer + [o] && Describe(d, e) == Placed(Draft(outer, None), Closed(o))
  {
    LevelsLength(d.open);
  }

  // ---------------------------------------------------------------- Histories

  lemma LeafIsGood(st: Style, e: Event, depth: nat)
    requires LeafText(st.target, e).Some?
    ensures Good(st.target, LeafOf(e)) && Print(st, LeafOf(e), depth) == LeafText(st.target, e).value
  {
    if EventInt(e).Some? {
      CanonicalNumeric(EventInt(e).value);
    }
  }

  lemma WriteLeafIs(st: Style, w: State, e: Event)
    requires LeafText(st.target, e).Some? && AllowsValue(w.levels, w.hasRoot, IsString(e))
    ensures Write(st, w, e) == Some(Wrote(st, w, LeafText(st.target, e).value))
  {
  }

  lemma DescribeLeaf(target: Target, d: Draft, e: Event)
    requires LeafText(target, e).Some? && !(AwaitsName(d.open) && IsString(e))
    ensures Describe(d, e) == Placed(d, LeafOf(e))
  {
  }

  lemma LeafAllowed(open: seq<Open>, hasRoot: bool, isString: bool)
    requires AllowsValue(LevelsOf(open), hasRoot, isString) && !(AwaitsName(open) && isString)
    ensures AllowsValue(LevelsOf(open), hasRoot, false)
  {
    LevelsLength(open);
    if open != [] && isString {
      NotNameAllows(open);
    }
  }

  lemma LeafHolds(st: Style, w: State, d: Draft, e: Event, limit: nat)
    requires Holds(st, w, d, limit) && LeafText(st.target, e).Some?
    requires AllowsValue(w.levels, w.hasRoot, IsString(e)) && !(AwaitsName(d.open) && IsString(e))
    ensures Write(st, w, e).Some? && Holds(st, Write(st, w, e).value, Describe(d, e), limit + 1)
  {
    assert w.levels == LevelsOf(d.open);
    LeafAllowed(d.open, w.hasRoot, IsString(e));
    LeafIsGood(st, e, |d.open|);
    WriteLeafIs(st, w, e);
    DescribeLeaf(st.target, d, e);
    PlacedHolds(st, w, d, LeafOf(e), limit, Write(st, w, e).value);
  }

  lemma WriteCases(st: Style, w: State, e: Event)
    requires Write(st, w, e).Some?
    ensures e.EndArray? || e.EndObject? ==> AllowsEnd(w.levels, e.EndArray?)
    ensures !e.EndArray? && !e.EndObject? ==> AllowsValue(w.levels, w.hasRoot, IsString(e))
    ensures e.StartArray? || e.StartObject? ==> Write(st, w, e).value == Opened(st, w, e)
    ensures !e.EndArray? && !e.EndObject? && !e.StartArray? && !e.StartObject? ==> LeafText(st.target, e).Some?
  {
  }

  /** Every event the writer allows keeps writer and draft together. */
  lemma EventHolds(st: Style, w: State, d: Draft, e: Event, limit: nat)
    requires Holds(st, w, d, limit) && limit <= MAX_UINT32 && Write(st, w, e).Some?
    ensures Holds(st, Write(st, w, e).value, Describe(d, e), limit + 1)
  {
    WriteCases(st, w, e);
    if e.EndArray? || e.EndObject? {
      CloseHolds(st, w, d, e, limit);
    } else if e.StartArray? || e.StartObject? {
      OpenHolds(st, w, d, e, limit);
    } else if AwaitsName(d.open) && IsString(e) {
      NameHolds(st, w, d, e, limit);
    } else {
      LeafHolds(st, w, d, e, limit);
    }
  }

  /** Over every legal history the text so far is the text of what the events describe so far. */
  lemma {:induction false} HistoryHolds(st: Style, events: seq<Event>)
    requires |events| <= MAX_UINT32 && WriteAll(st, State([], [], false), events).Some?
    ensures Holds(st, WriteAll(st, State([], [], false), events).value, Described(events), |events|)
    decreases |events|
  {
    if events != [] {
      var before := events[..|events| - 1];
      HistoryHolds(st, before);
      EventHolds(st, WriteAll(st, State([], [], false), before).value, Described(before), events[|events| - 1],
        |before|);
    }
  }

  /** A complete text is the text of the one value that the events describe. */
  lemma CompleteTextIsValue(st: Style, events: seq<Event>, w: State)
    requires |events| <= MAX_UINT32 && WriteAll(st, State([], [], false), events) == Some(w)
    ensures IsComplete(w) <==> Described(events).open == [] && Described(events).root.Some?
    ensures IsComplete(w) ==>
      var v := Described(events).root.value;
      WellFormed(v) && Printable(st.target, v) && w.out == Print(st, v, 0)
  {
    HistoryHolds(st, events);
    LevelsLength(Described(events).open);
  }

  // ---------------------------------------------------------------- The pretty writer keeps the meaning

  /** States of two writers that differ in format only. */
  ghost predicate Alike(a: State, b: State) {
    a.levels == b.levels && a.hasRoot == b.hasRoot
  }

  lemma WriteAlike(st: Style, f: Format, a: State, b: State, e: Event)
    requires Alike(a, b)
    ensures Write(st, a, e).Some? <==> Write(st.(format := f), b, e).Some?
    ensures Write(st, a, e).Some? ==> Alike(Write(st, a, e).value, Write(st.(format := f), b, e).value)
  {
  }

  /** The order of calls the assertions allow does not depend on the format. */
  lemma {:induction false} LegalInEveryFormat(st: Style, f: Format, events: seq<Event>)
    ensures var a, b := WriteAll(st, State([], [], false), events),
        WriteAll(st.(format := f), State([], [], false), events);
      (a.Some? <==> b.Some?) && (a.Some? ==> Alike(a.value, b.value))
    decreases |events|
  {
    if events != [] {
      var before := events[..|events| - 1];
      LegalInEveryFormat(st, f, before);
      var a, b := WriteAll(st, State([], [], false), before),
        WriteAll(st.(format := f), State([], [], false), before);
      if a.Some? {
        WriteAlike(st, f, a.value, b.value, events[|events| - 1]);
      }
    }
  }

  /**
   For every legal and complete history the pretty text is the compact text with white space put in outside
   strings, and both parse to the same events.
   */
  lemma PrettyHistory(cfg: Sax.Config, st: Style, events: seq<Event>, pretty: State)
    requires ReadBack.AcceptsAll(cfg) && ValidFormat(st.format) && |events| <= MAX_UINT32
    requires WriteAll(st, State([], [], false), events) == Some(pretty) && IsComplete(pretty)
    ensures var compact := WriteAll(st.(format := Compact), State([], [], false), events);
      && compact.Some? && IsComplete(compact.value)
      && WhiteSpace.Squeezes(pretty.out, compact.value.out)
      && Descent.Parse(cfg, pretty.out).Fine?
      && Descent.Parse(cfg, compact.value.out).Fine?
      && Descent.Parse(cfg, pretty.out).log == Descent.Parse(cfg, compact.value.out).log
  {
    LegalInEveryFormat(st, Compact, events);
    var compact := WriteAll(st.(format := Compact), State([], [], false), events).value;
    CompleteTextIsValue(st, events, pretty);
    CompleteTextIsValue(st.(format := Compact), events, compact);
    var v := Described(events).root.value;
    WhiteSpace.PrettyIsSpacedCompact(st, v, 0);
    ReadBack.ReadText(cfg, st, v);
    ReadBack.ReadText(cfg, st.(format := Compact), v);
  }
}
