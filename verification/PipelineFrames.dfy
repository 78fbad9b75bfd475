/**
 What becomes of frames: when exactly one is dropped, that every gathered point is handed over once a frame is due,
 and that what arrived is published when nothing was dropped.
 */
module PipelineFrames {

  import opened Ring
  import opened Pipeline
  import opened PipelineProof
  import opened PipelineRuns

  // ---------------------------------------------------------------- Dropping

  /**
   In every reachable state the next packet is dropped exactly when its lidar is unknown or its ring is full; only
   the full ring asks for a signal. Otherwise, once the ring has slots, the packet is going to be written.
   */
  lemma DeliverExactly(s: State, actions: seq<Action>)
    requires Start(s) && Run(s, actions).producer.Delivering? && Run(s, actions).producer.rest != []
    ensures
      var t := Run(s, actions);
      var d, rest := t.producer.rest[0], t.producer.rest[1..];
      d.lidar < |t.lidars| &&
      var l := t.lidars[d.lidar];
      var dropped := t.lidars[d.lidar := l.(history := l.history + [Attempt(d.packet, false)])];
      Do(t, Deliver) ==
        if !l.known then t.(lidars := dropped, producer := Delivering(rest))
        else if l.ring.size == 0 then t
        else if |InRing(l.ring)| == l.ring.size then t.(lidars := dropped, producer := ReadingCount(rest))
        else t.(producer := Writing(d.lidar, d.packet, rest))
  {
    RunHolds(s, actions);
    var t := Run(s, actions);
    RingCounts(t, t.producer.rest[0].lidar);
  }

  lemma RingCounts(t: State, i: nat)
    requires Sound(t) && i < |t.lidars|
    ensures |InRing(t.lidars[i].ring)| == Used(t.lidars[i].ring) <= t.lidars[i].ring.size
    ensures t.lidars[i].ring.size > 0 <==> HasSlots(t.lidars[i].ring)
  {
    assert Kept(t.lidars[i], InFlight(t.producer, i));
  }

  /** The step delivers a packet of the lidar, and the lidar is unknown or its ring is full. */
  ghost predicate FindsNoRoom(t: State, a: Action, i: nat)
    requires i < |t.lidars|
  {
    && a.Deliver? && t.producer.Delivering? && t.producer.rest != [] && t.producer.rest[0].lidar == i
    && (t.lidars[i].known ==> |InRing(t.lidars[i].ring)| == t.lidars[i].ring.size > 0)
  }

  lemma LogDrops(history: seq<Attempt>, attempt: Attempt)
    ensures DroppedPackets(history + [attempt])
         == DroppedPackets(history) + if attempt.stored then [] else [attempt.packet]
  {
    assert (history + [attempt])[..|history|] == history;
  }

  lemma StepDrops(t: State, a: Action, i: nat)
    requires Sound(t) && i < |t.lidars| == |Do(t, a).lidars|
    ensures
      DroppedPackets(Do(t, a).lidars[i].history)
      == DroppedPackets(t.lidars[i].history) + if FindsNoRoom(t, a, i) then [t.producer.rest[0].packet] else []
  {
    if a.Deliver? && t.producer.Delivering? && t.producer.rest != [] && t.producer.rest[0].lidar == i {
      RingCounts(t, i);
      LogDrops(t.lidars[i].history, Attempt(t.producer.rest[0].packet, false));
    } else if a.PublishIndex? && t.producer.Publishing? && t.producer.lidar == i {
      LogDrops(t.lidars[i].history, Attempt(t.producer.packet, true));
    } else {
      HistoryStays(t, a, i);
    }
  }

  lemma HistoryStays(t: State, a: Action, i: nat)
    requires Sound(t) && i < |t.lidars| == |Do(t, a).lidars|
    requires !(a.Deliver? && t.producer.Delivering? && t.producer.rest != [] && t.producer.rest[0].lidar == i)
    requires !(a.PublishIndex? && t.producer.Publishing? && t.producer.lidar == i)
    ensures Do(t, a).lidars[i].history == t.lidars[i].history
  {
  }

  /** No delivery of the run finds the lidar unknown or its ring full. */
  ghost predicate FindsRoom(s: State, actions: seq<Action>, i: nat)
    requires i < |s.lidars|
  {
    forall n: nat | n < |actions| ::
      |Run(s, actions[..n]).lidars| == |s.lidars| && !FindsNoRoom(Run(s, actions[..n]), actions[n], i)
  }

  lemma LastFindsRoom(s: State, actions: seq<Action>, i: nat)
    requires Start(s) && i < |s.lidars| && actions != []
    ensures
      var last := |actions| - 1;
      |Run(s, actions[..last]).lidars| == |s.lidars| &&
      (FindsRoom(s, actions, i)
       <==> FindsRoom(s, actions[..last], i) && !FindsNoRoom(Run(s, actions[..last]), actions[last], i))
  {
    var last := |actions| - 1;
    var before := actions[..last];
    FrameNeverOverflows(s, before);
    assert forall n: nat | n < last :: before[..n] == actions[..n] && before[n] == actions[n];
  }

  /** Over every run, no packet of a lidar is dropped exactly when no delivery finds it unknown or its ring full. */
  lemma {:induction false} NothingDroppedExactly(s: State, actions: seq<Action>, i: nat)
    requires Start(s) && i < |s.lidars|
    ensures |Run(s, actions).lidars| == |s.lidars|
    ensures DroppedPackets(Run(s, actions).lidars[i].history) == [] <==> FindsRoom(s, actions, i)
    decreases |actions|
  {
    FrameNeverOverflows(s, actions);
    if actions != [] {
      var last := |actions| - 1;
      NothingDroppedExactly(s, actions[..last], i);
      LastFindsRoom(s, actions, i);
      RunHolds(s, actions[..last]);
      StepDrops(Run(s, actions[..last]), actions[last], i);
    }
  }

  // ---------------------------------------------------------------- Arriving and announcing

  /** The points of a lidar that the run lets arrive: those that come between frames. */
  ghost function Arrivals(s: State, actions: seq<Action>, i: nat): seq<Point>
    decreases |actions|
  {
    if actions == [] then []
    else
      var last := |actions| - 1;
      var a := actions[last];
      var now := if a.Append? && a.lidar == i && Run(s, actions[..last]).producer.Idle? then [a.point] else [];
      Arrivals(s, actions[..last], i) + now
  }

  /** Over every run, what a lidar has gathered in all is what has arrived from it, in order. */
  lemma {:induction false} EveryArrivalIsGathered(s: State, actions: seq<Action>, i: nat)
    requires Start(s) && i < |s.lidars|
    ensures |Run(s, actions).lidars| == |s.lidars| && Run(s, actions).lidars[i].appended == Arrivals(s, actions, i)
    decreases |actions|
  {
    FrameNeverOverflows(s, actions);
    if actions != [] {
      var last := |actions| - 1;
      EveryArrivalIsGathered(s, actions[..last], i);
      StepGathers(Run(s, actions[..last]), actions[last], i);
    }
  }

  lemma StepGathers(t: State, a: Action, i: nat)
    requires i < |t.lidars| == |Do(t, a).lidars|
    ensures
      Do(t, a).lidars[i].appended
      == t.lidars[i].appended + if a.Append? && a.lidar == i && t.producer.Idle? then [a.point] else []
  {
    if !a.Append? {
      assert t.lidars[i].appended + [] == t.lidars[i].appended;
    }
  }

  /** A packet has been stored in a ring that may have been drained since; what comes of announcing it. */
  ghost predicate Announced(t: State, drained: bool)
    requires t.producer.TestingEmpty?
  {
    var after := Delivering(t.producer.rest);
    if drained then Do(t, TestEmpty) == t.(producer := after)
    else if t.count > 0 then Do(Do(t, TestEmpty), ReadCount) == t.(producer := after)
    else Do(Do(Do(t, TestEmpty), ReadCount), Signal) == t.(count := t.count + 1, producer := after)
  }

  lemma AnnouncedWhen(t: State, r: Ring)
    requires t.producer.TestingEmpty? && t.producer.lidar < |t.lidars| && r == t.lidars[t.producer.lidar].ring
    ensures Announced(t, r.rd == r.wr)
  {
  }

  lemma DrainedIs(r: Ring)
    ensures Used(r) == 0 <==> r.rd == r.wr
  {
  }

  /**
   In every reachable state in which a packet has just been stored, no signal is given when its ring has been drained
   already or the count is not zero, and one signal otherwise.
   */
  lemma AnnouncedExactly(s: State, actions: seq<Action>)
    requires Start(s) && Run(s, actions).producer.TestingEmpty?
    ensures
      var t := Run(s, actions);
      t.producer.lidar < |t.lidars| && Announced(t, InRing(t.lidars[t.producer.lidar].ring) == [])
  {
    RunHolds(s, actions);
    var t := Run(s, actions);
    var r := t.lidars[t.producer.lidar].ring;
    RingCounts(t, t.producer.lidar);
    DrainedIs(r);
    AnnouncedWhen(t, r);
  }

  // ---------------------------------------------------------------- A frame is handed over

  /** A step of the gathering thread that carries a frame on. */
  predicate CarriesOn(a: Action) {
    a.TakePoints? || a.InitRing? || a.Deliver? || a.FinishWrite? || a.PublishIndex? || a.TestEmpty? || a.ReadCount?
    || a.Signal?
  }

  /** What the gathering thread does next with a frame; the size of a new ring is given. */
  function Carry(s: State, k: nat): (a: Action)
    ensures CarriesOn(a)
  {
    match s.producer
    case Framing(_, _) => TakePoints
    case Delivering(rest) =>
      if rest != [] && rest[0].lidar < |s.lidars| && s.lidars[rest[0].lidar].known
         && s.lidars[rest[0].lidar].ring.size == 0 then InitRing(k)
      else Deliver
    case Writing(_, _, _) => FinishWrite
    case Publishing(_, _, _) => PublishIndex
    case TestingEmpty(_, _) => TestEmpty
    case ReadingCount(_) => ReadCount
    case Signalling(_) => Signal
    case Idle => Deliver
  }

  /** How far the frame is from its end: lidars to take from, packets to deliver, and the stage of the next packet. */
  function ToTake(p: Producer): (n: nat) {
    if p.Framing? then |p.todo| + 1 else 0
  }

  function ToDeliver(p: Producer): (n: nat) {
    match p
    case Idle => 0
    case Framing(_, _) => 0
    case Delivering(rest) => |rest| + 1
    case Writing(_, _, rest) => |rest| + 1
    case Publishing(_, _, rest) => |rest| + 1
    case TestingEmpty(_, rest) => |rest| + 1
    case ReadingCount(rest) => |rest| + 1
    case Signalling(rest) => |rest| + 1
  }

  function Step(s: State): (n: nat) {
    match s.producer
    case Idle => 0
    case Framing(_, _) => 0
    case Delivering(rest) => if Carry(s, 0).InitRing? then 1 else 0
    case Writing(_, _, _) => 6
    case Publishing(_, _, _) => 5
    case TestingEmpty(_, _) => 4
    case ReadingCount(_) => 3
    case Signalling(_) => 2
  }

  /** Nothing is gathered from the lidars in `order`, but from those whose turn in the frame is still to come. */
  ghost predicate Emptied(s: State, order: seq<nat>) {
    forall i | i in order ::
      i < |s.lidars| && (s.lidars[i].gathered == [] || (s.producer.Framing? && i in s.producer.todo))
  }

  /** What the gathering thread leaves alone while it carries a frame on. */
  ghost predicate Undisturbed(s: State, t: State, order: seq<nat>) {
    && t.consumer == s.consumer && |t.lidars| == |s.lidars|
    && forall i: nat | i < |s.lidars| ::
         && t.lidars[i].sampling == s.lidars[i].sampling && t.lidars[i].known == s.lidars[i].known
         && t.lidars[i].appended == s.lidars[i].appended && t.lidars[i].published == s.lidars[i].published
         && (i !in order ==> t.lidars[i].gathered == s.lidars[i].gathered)
  }

  ghost predicate FrameOf(s: State, order: seq<nat>) {
    s.producer.Framing? ==> forall i | i in s.producer.todo :: i in order
  }

  predicate Descends(s: State, t: State) {
    || ToTake(t.producer) < ToTake(s.producer)
    || (ToTake(t.producer) == ToTake(s.producer)
        && (ToDeliver(t.producer) < ToDeliver(s.producer)
            || (ToDeliver(t.producer) == ToDeliver(s.producer) && Step(t) < Step(s))))
  }

  lemma CarryDescends(s: State, k: nat)
    requires Sound(s) && !s.producer.Idle? && k < 32
    ensures Descends(s, Do(s, Carry(s, k)))
  {
    if s.producer.Framing? {
      TakeDescends(s);
    } else if s.producer.Delivering? {
      DeliverDescends(s, k);
    }
  }

  lemma TakeDescends(s: State)
    requires Sound(s) && s.producer.Framing?
    ensures Descends(s, DoTakePoints(s))
  {
    assert s.producer.todo != [] ==> s.producer.todo[0] in s.producer.todo;
  }

  lemma DeliverDescends(s: State, k: nat)
    requires Sound(s) && s.producer.Delivering? && k < 32
    ensures Descends(s, Do(s, Carry(s, k)))
  {
    if Carry(s, k).InitRing? {
      assert IsSize(Pow2(k));
      SizeBelowWord(Pow2(k));
    }
  }

  lemma CarryKeeps(s: State, k: nat, order: seq<nat>)
    requires Sound(s) && !s.producer.Idle? && k < 32 && Emptied(s, order) && FrameOf(s, order)
    ensures
      var t := Do(s, Carry(s, k));
      Emptied(t, order) && Undisturbed(s, t, order) && FrameOf(t, order)
  {
    if s.producer.Framing? {
      TakeKeeps(s, order);
    } else if s.producer.Delivering? {
      DeliverLeaves(s, k, order);
    } else {
      StoreLeaves(s, k, order);
    }
  }

  lemma DeliverLeaves(s: State, k: nat, order: seq<nat>)
    requires Sound(s) && s.producer.Delivering? && Emptied(s, order)
    ensures
      var t := Do(s, Carry(s, k));
      Emptied(t, order) && Undisturbed(s, t, order) && !t.producer.Framing?
  {
    OnlyRingAndHistory(s, Do(s, Carry(s, k)), order);
  }

  lemma StoreLeaves(s: State, k: nat, order: seq<nat>)
    requires Sound(s) && !s.producer.Idle? && !s.producer.Framing? && !s.producer.Delivering? && Emptied(s, order)
    ensures
      var t := Do(s, Carry(s, k));
      Emptied(t, order) && Undisturbed(s, t, order) && !t.producer.Framing?
  {
    if s.producer.Writing? || s.producer.Publishing? {
      SlotLeaves(s, k, order);
    } else {
      assert Do(s, Carry(s, k)).lidars == s.lidars;
    }
  }

  lemma SlotLeaves(s: State, k: nat, order: seq<nat>)
    requires Sound(s) && (s.producer.Writing? || s.producer.Publishing?) && Emptied(s, order)
    ensures
      var t := Do(s, Carry(s, k));
      Emptied(t, order) && Undisturbed(s, t, order) && !t.producer.Framing?
  {
    OnlyRingAndHistory(s, Do(s, Carry(s, k)), order);
  }

  /** A step that changes nothing of a lidar but its ring and its log. */
  lemma OnlyRingAndHistory(s: State, t: State, order: seq<nat>)
    requires Emptied(s, order) && !s.producer.Framing?
    requires t.consumer == s.consumer && |t.lidars| == |s.lidars|
    requires forall i: nat | i < |s.lidars| ::
      t.lidars[i] == s.lidars[i].(ring := t.lidars[i].ring, history := t.lidars[i].history)
    ensures Emptied(t, order) && Undisturbed(s, t, order)
  {
  }

  lemma TakeKeeps(s: State, order: seq<nat>)
    requires Sound(s) && s.producer.Framing? && Emptied(s, order) && FrameOf(s, order)
    ensures
      var t := DoTakePoints(s);
      Emptied(t, order) && Undisturbed(s, t, order) && FrameOf(t, order)
  {
    var todo := s.producer.todo;
    if todo != [] {
      assert todo[0] in todo;
      forall i | i in todo
        ensures i == todo[0] || i in todo[1..]
      {
      }
    }
  }

  lemma {:induction false} FrameEnds(
    s: State, k: nat, order: seq<nat>, take: nat, deliver: nat, step: nat) returns (more: seq<Action>)
    requires Sound(s) && Awake(s) && k < 32 && Emptied(s, order) && FrameOf(s, order)
    requires take == ToTake(s.producer) && deliver == ToDeliver(s.producer) && step == Step(s)
    ensures forall n | 0 <= n < |more| :: CarriesOn(more[n])
    ensures
      var t := Run(s, more);
      t.producer.Idle? && Emptied(t, order) && Undisturbed(s, t, order) && Sound(t)
    decreases take, deliver, step
  {
    if s.producer.Idle? {
      more := [];
    } else {
      var a := Carry(s, k);
      var u := Do(s, a);
      CarryDescends(s, k);
      CarryKeeps(s, k, order);
      StepSound(s, a);
      StepAwake(s, a);
      var rest := FrameEnds(u, k, order, ToTake(u.producer), ToDeliver(u.producer), Step(u));
      more := [a] + rest;
      RunFirst(s, a, rest);
    }
  }

  /**
   When a frame is due, the gathering thread comes to the end of it by its own steps, and every point that has
   arrived from the lidars of the frame has then been handed over, in order; the others keep what they have gathered.
   */
  lemma FrameIsHandedOver(s: State, actions: seq<Action>, order: seq<nat>, k: nat) returns (more: seq<Action>)
    requires Start(s) && Run(s, actions).producer.Idle? && k < 32
    requires Distinct(order) && forall i | i in order :: i < |Run(s, actions).lidars|
    ensures forall n | 0 <= n < |more| :: CarriesOn(more[n])
    ensures
      var t, u := Run(s, actions), Run(s, actions + [StartFrame(order)] + more);
      && u.producer.Idle? && Undisturbed(t, u, order)
      && forall i | i in order ::
           u.lidars[i].gathered == [] && HandedOver(u.lidars[i].history) == t.lidars[i].appended
  {
    var t := Run(s, actions);
    RunHolds(s, actions);
    StepSound(t, StartFrame(order));
    StepAwake(t, StartFrame(order));
    var f := Do(t, StartFrame(order));
    more := FrameEnds(f, k, order, ToTake(f.producer), ToDeliver(f.producer), Step(f));
    RunStep(s, actions, StartFrame(order));
    RunOn(s, actions + [StartFrame(order)], more);
    var u := Run(f, more);
    forall i | i in order
      ensures HandedOver(u.lidars[i].history) == t.lidars[i].appended
    {
      assert Kept(u.lidars[i], InFlight(u.producer, i));
    }
  }

  // ---------------------------------------------------------------- From arrival to publication

  ghost predicate SameLog(s: State, t: State) {
    t.producer == s.producer && |t.lidars| == |s.lidars| &&
    forall i: nat | i < |s.lidars| ::
      t.lidars[i].sampling == s.lidars[i].sampling && t.lidars[i].known == s.lidars[i].known
      && t.lidars[i].appended == s.lidars[i].appended && t.lidars[i].history == s.lidars[i].history
  }

  lemma OwnKeepsLog(s: State, a: Action)
    requires IsOwn(a)
    ensures SameLog(s, Do(s, a))
  {
  }

  /** The publishing thread neither takes points nor stores packets. */
  lemma {:induction false} PublishingKeepsLog(s: State, more: seq<Action>)
    requires forall n | 0 <= n < |more| :: IsOwn(more[n])
    ensures SameLog(s, Run(s, more))
    decreases |more|
  {
    if more != [] {
      PublishingKeepsLog(s, more[..|more| - 1]);
      OwnKeepsLog(Run(s, more[..|more| - 1]), more[|more| - 1]);
    }
  }

  /** The points of packets, in order. */
  function PointsOf(packets: seq<Packet>): (s: seq<Point>) {
    if packets == [] then [] else PointsOf(packets[..|packets| - 1]) + packets[|packets| - 1].points
  }

  lemma {:induction false} NothingDroppedAllStored(history: seq<Attempt>)
    requires DroppedPackets(history) == []
    ensures PointsOf(Stored(history)) == HandedOver(history)
  {
    if history != [] {
      var last := |history| - 1;
      NothingDroppedAllStored(history[..last]);
      assert Stored(history)[..|Stored(history)| - 1] == Stored(history[..last]);
    }
  }

  function AllLidars(n: nat): (order: seq<nat>)
    ensures |order| == n && (forall i: nat | i < n :: order[i] == i)
    ensures Distinct(order) && forall i: nat :: i in order <==> i < n
  {
    if n == 0 then [] else AllLidars(n - 1) + [n - 1]
  }

  /**
   From any state between frames a frame of all lidars, delivered and then drained, publishes everything that has
   arrived from a sampling lidar of which no packet has been dropped: the points published are the points that
   arrived, in order.
   */
  lemma ArrivedIsPublished(s: State, actions: seq<Action>, k: nat)
    returns (carry: seq<Action>, drain: seq<Action>)
    requires Start(s) && Run(s, actions).producer.Idle? && k < 32
    ensures forall n | 0 <= n < |carry| :: CarriesOn(carry[n])
    ensures forall n | 0 <= n < |drain| :: IsOwn(drain[n])
    ensures
      var t := Run(s, actions);
      var u := Run(s, actions + [StartFrame(AllLidars(|t.lidars|))] + carry + drain);
      |u.lidars| == |t.lidars| &&
      forall i: nat | i < |t.lidars| && t.lidars[i].sampling && DroppedPackets(u.lidars[i].history) == [] ::
        PointsOf(u.lidars[i].published) == t.lidars[i].appended
  {
    var t := Run(s, actions);
    var order := AllLidars(|t.lidars|);
    carry := FrameIsHandedOver(s, actions, order, k);
    var before := actions + [StartFrame(order)] + carry;
    drain := EverythingIsPublished(s, before);
    RunOn(s, before, drain);
    PublishingKeepsLog(Run(s, before), drain);
    var u := Run(s, before + drain);
    forall i: nat | i < |t.lidars| && t.lidars[i].sampling && DroppedPackets(u.lidars[i].history) == []
      ensures PointsOf(u.lidars[i].published) == t.lidars[i].appended
    {
      NothingDroppedAllStored(u.lidars[i].history);
    }
  }

  /** Only sampling lidars are being drained, and nothing of another has been published. */
  ghost predicate OnlySampled(s: State) {
    && (s.consumer.Waiting? || s.consumer.Visiting?
        || (s.consumer.lidar < |s.lidars| ==> s.lidars[s.consumer.lidar].sampling))
    && forall i: nat | i < |s.lidars| && !s.lidars[i].sampling :: s.lidars[i].published == []
  }

  lemma GatheringOnlySampled(s: State, a: Action)
    requires OnlySampled(s) && !IsOwn(a)
    ensures OnlySampled(Do(s, a))
  {
    var t := Do(s, a);
    assert t.consumer == s.consumer && |t.lidars| == |s.lidars|;
    assert forall i: nat | i < |s.lidars| ::
      t.lidars[i].sampling == s.lidars[i].sampling && t.lidars[i].published == s.lidars[i].published;
  }

  lemma PublishingOnlySampled(s: State, a: Action)
    requires OnlySampled(s) && IsOwn(a)
    ensures OnlySampled(Do(s, a))
  {
  }

  /** Nothing is ever published from a lidar that is not sampling. */
  lemma {:induction false} NothingFromOthers(s: State, actions: seq<Action>)
    requires Start(s)
    ensures OnlySampled(Run(s, actions))
    decreases |actions|
  {
    if actions != [] {
      var last := |actions| - 1;
      NothingFromOthers(s, actions[..last]);
      if IsOwn(actions[last]) {
        PublishingOnlySampled(Run(s, actions[..last]), actions[last]);
      } else {
        GatheringOnlySampled(Run(s, actions[..last]), actions[last]);
      }
    }
  }
}
