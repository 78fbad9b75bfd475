/**
 The guarantees of the pipeline over all its runs: every interleaving, of any length, from the start.
 */
module PipelineRuns {

  import opened Ring
  import opened Pipeline
  import opened PipelineProof

  lemma StepSound(s: State, a: Action)
    requires Sound(s)
    ensures Sound(Do(s, a))
  {
    match a
    case Append(i, point) => AppendKeeps(s, i, point);
    case StartFrame(order) => StartFrameKeeps(s, order);
    case TakePoints => TakePointsKeeps(s);
    case InitRing(k) => InitRingKeeps(s, k);
    case Deliver => DeliverKeeps(s);
    case Scribble(junk) => ScribbleKeeps(s, junk);
    case FinishWrite => FinishWriteKeeps(s);
    case PublishIndex => PublishIndexKeeps(s);
    case TestEmpty => TestEmptyKeeps(s);
    case ReadCount => ReadCountKeeps(s);
    case Signal => SignalKeeps(s);
    case Wait => WaitKeeps(s);
    case Visit => VisitKeeps(s);
    case Poll => PollKeeps(s);
    case ReadTime => ReadingKeeps(s);
    case ReadPoints => ReadingKeeps(s);
    case ReleaseSlot => ReleaseSlotKeeps(s);
  }

  // ---------------------------------------------------------------- The semaphore

  /** How many lidars the publishing thread has passed since its last wake-up. */
  function Passed(s: State): (n: nat) {
    match s.consumer
    case Waiting => |s.lidars|
    case Visiting(i) => i
    case Polling(i) => i
    case Reading(i) => i
    case Copying(i, _) => i
    case Updating(i, _) => i
  }

  /** Nothing to publish from a lidar, or its packet is still to be announced. */
  predicate Settled(s: State, j: nat)
    requires j < |s.lidars|
  {
    !s.lidars[j].sampling || Used(s.lidars[j].ring) == 0 || (s.producer.TestingEmpty? && s.producer.lidar == j)
  }

  predicate AllSettled(s: State) {
    forall j: nat | j < |s.lidars| && j < Passed(s) :: Settled(s, j)
  }

  /** A wake-up is there or on its way, or no lidar that was passed needs one. */
  predicate Awake(s: State) {
    && 0 <= s.count <= 1
    && (s.producer.Signalling? ==> s.count == 0)
    && (s.count == 1 || s.producer.ReadingCount? || s.producer.Signalling? || AllSettled(s))
  }

  /** A step that leaves the semaphore, the publishing thread and the number of packets in each ring alone. */
  lemma QuietStep(s: State, t: State)
    requires Awake(s) && t.count == s.count && t.consumer == s.consumer && |t.lidars| == |s.lidars|
    requires !s.producer.TestingEmpty? && !s.producer.ReadingCount? && !s.producer.Signalling?
    requires !t.producer.Signalling?
    requires forall j: nat | j < |s.lidars| ::
      t.lidars[j].sampling == s.lidars[j].sampling && Used(t.lidars[j].ring) == Used(s.lidars[j].ring)
    ensures Awake(t)
  {
    if AllSettled(s) {
      forall j: nat | j < |t.lidars| && j < Passed(t)
        ensures Settled(t, j)
      {
        assert Settled(s, j);
      }
    }
  }

  lemma GatheringAwake(s: State, a: Action)
    requires Sound(s) && Awake(s) && (a.Append? || a.StartFrame? || a.TakePoints? || a.InitRing?)
    ensures Awake(Do(s, a))
  {
    if Do(s, a) != s {
      if a.InitRing? {
        assert Kept(s.lidars[s.producer.rest[0].lidar], InFlight(s.producer, s.producer.rest[0].lidar));
      }
      QuietStep(s, Do(s, a));
    }
  }

  lemma StoringAwake(s: State, a: Action)
    requires Awake(s) && (a.Deliver? || a.Scribble? || a.FinishWrite?)
    ensures Awake(Do(s, a))
  {
    if Do(s, a) != s {
      QuietStep(s, Do(s, a));
    }
  }

  lemma PublishAwake(s: State)
    requires Awake(s)
    ensures Awake(DoPublishIndex(s))
  {
    var t := DoPublishIndex(s);
    if t != s && AllSettled(s) {
      forall j: nat | j < |t.lidars| && j < Passed(t)
        ensures Settled(t, j)
      {
        assert Settled(s, j);
      }
    }
  }

  lemma AnnouncingAwake(s: State, a: Action)
    requires Awake(s) && (a.TestEmpty? || a.ReadCount? || a.Signal?)
    ensures Awake(Do(s, a))
  {
    var t := Do(s, a);
    if s.count == 0 && AllSettled(s) {
      forall j: nat | j < |t.lidars| && j < Passed(t)
        ensures t.producer.ReadingCount? || Settled(t, j)
      {
        assert Settled(s, j);
      }
    }
  }

  lemma WaitAwake(s: State)
    requires Awake(s)
    ensures Awake(DoWait(s))
  {
  }

  /** The publishing thread passes a lidar only when it has nothing to publish from it. */
  lemma PassAwake(s: State, t: State)
    requires Awake(s) && t.count == s.count && t.producer == s.producer && t.lidars == s.lidars
    requires Passed(t) <= Passed(s) || (Passed(t) == Passed(s) + 1 <= |s.lidars| && Settled(s, Passed(s)))
    ensures Awake(t)
  {
    if AllSettled(s) {
      forall j: nat | j < |t.lidars| && j < Passed(t)
        ensures Settled(t, j)
      {
        assert j < Passed(s) ==> Settled(s, j);
      }
    }
  }

  lemma VisitAwake(s: State)
    requires Sound(s) && Awake(s)
    ensures Awake(DoVisit(s))
  {
    if s.consumer.Visiting? && s.consumer.lidar < |s.lidars| {
      assert Kept(s.lidars[s.consumer.lidar], InFlight(s.producer, s.consumer.lidar));
    }
    PassAwake(s, DoVisit(s));
  }

  lemma ReadingAwake(s: State, a: Action)
    requires Sound(s) && Awake(s) && (a.Poll? || a.ReadTime? || a.ReadPoints?)
    ensures Awake(Do(s, a))
  {
    PassAwake(s, Do(s, a));
  }

  lemma ReleaseAwake(s: State)
    requires Sound(s) && Awake(s)
    ensures Awake(DoReleaseSlot(s))
  {
    var t := DoReleaseSlot(s);
    if t != s && AllSettled(s) {
      forall j: nat | j < |t.lidars| && j < Passed(t)
        ensures Settled(t, j)
      {
        assert Settled(s, j);
      }
    }
  }

  lemma StepAwake(s: State, a: Action)
    requires Sound(s) && Awake(s)
    ensures Awake(Do(s, a))
  {
    if a.Append? || a.StartFrame? || a.TakePoints? || a.InitRing? {
      GatheringAwake(s, a);
    } else if a.Deliver? || a.Scribble? || a.FinishWrite? {
      StoringAwake(s, a);
    } else if a.PublishIndex? {
      PublishAwake(s);
    } else if a.TestEmpty? || a.ReadCount? || a.Signal? {
      AnnouncingAwake(s, a);
    } else if a.Wait? {
      WaitAwake(s);
    } else if a.Visit? {
      VisitAwake(s);
    } else if a.ReleaseSlot? {
      ReleaseAwake(s);
    } else {
      ReadingAwake(s, a);
    }
  }

  // ---------------------------------------------------------------- All runs

  lemma StartHolds(s: State)
    requires Start(s)
    ensures Sound(s) && Awake(s)
  {
  }

  lemma {:induction false} RunHolds(s: State, actions: seq<Action>)
    requires Start(s)
    ensures Sound(Run(s, actions)) && Awake(Run(s, actions))
    decreases |actions|
  {
    if actions == [] {
      StartHolds(s);
    } else {
      var before := actions[..|actions| - 1];
      RunHolds(s, before);
      StepSound(Run(s, before), actions[|actions| - 1]);
      StepAwake(Run(s, before), actions[|actions| - 1]);
    }
  }

  /** The gathering thread still has to test the ring or the count after its last packet. */
  predicate OwesSignal(p: Producer) {
    p.TestingEmpty? || p.ReadingCount? || p.Signalling?
  }

  /**
   No wake-up is lost: when the publishing thread is in its wait, the count is positive, or the gathering thread
   still owes its test, or there is nothing to publish from any sampling lidar. The count is always 0 or 1.
   */
  lemma NoLostWakeUp(s: State, actions: seq<Action>)
    requires Start(s)
    ensures 0 <= Run(s, actions).count <= 1
    ensures
      var t := Run(s, actions);
      t.consumer.Waiting? ==>
        t.count > 0 || OwesSignal(t.producer)
        || forall i | 0 <= i < |t.lidars| && t.lidars[i].sampling :: InRing(t.lidars[i].ring) == []
  {
    RunHolds(s, actions);
    var t := Run(s, actions);
    if t.consumer.Waiting? && t.count == 0 && !OwesSignal(t.producer) {
      forall i | 0 <= i < |t.lidars| && t.lidars[i].sampling
        ensures InRing(t.lidars[i].ring) == []
      {
        assert Settled(t, i);
      }
    }
  }

  /** The slots of the two threads, when both are at work in the same ring. */
  predicate SameSlot(s: State) {
    && s.producer.Writing?
    && (s.consumer.Reading? || s.consumer.Copying?)
    && s.producer.lidar == s.consumer.lidar < |s.lidars|
    && s.lidars[s.producer.lidar].ring.size > 0
    && s.lidars[s.producer.lidar].ring.wr % s.lidars[s.producer.lidar].ring.size
       == s.lidars[s.producer.lidar].ring.rd % s.lidars[s.producer.lidar].ring.size
  }

  /** The slot being written is never the slot being read, and no ring ever holds more than its size. */
  lemma NoSlotRace(s: State, actions: seq<Action>)
    requires Start(s)
    ensures !SameSlot(Run(s, actions))
    ensures forall i | 0 <= i < |Run(s, actions).lidars| ::
      Used(Run(s, actions).lidars[i].ring) <= Run(s, actions).lidars[i].ring.size
  {
    RunHolds(s, actions);
    SlotsApart(Run(s, actions));
    NoneOverfull(Run(s, actions));
  }

  lemma NoneOverfull(t: State)
    requires Sound(t)
    ensures forall i | 0 <= i < |t.lidars| :: Used(t.lidars[i].ring) <= t.lidars[i].ring.size
  {
    forall i: nat | i < |t.lidars|
      ensures Used(t.lidars[i].ring) <= t.lidars[i].ring.size
    {
      assert Kept(t.lidars[i], InFlight(t.producer, i));
    }
  }

  lemma SlotsApart(t: State)
    requires Sound(t)
    ensures !SameSlot(t)
  {
    if t.producer.Writing? && (t.consumer.Reading? || t.consumer.Copying?) && t.producer.lidar == t.consumer.lidar {
      var i := t.producer.lidar;
      assert Kept(t.lidars[i], InFlight(t.producer, i));
      WriterIsElsewhere(t.lidars[i].ring);
    }
  }

  lemma WriterIsElsewhere(r: Ring)
    requires Good(r) && 0 < Used(r) < r.size
    ensures r.wr % r.size != r.rd % r.size
  {
    WriteIndex(r);
    SlotsDiffer(r.rd, r.rd + Used(r), r.size);
  }

  /** The packets that were dropped, in order. */
  function DroppedPackets(history: seq<Attempt>): (s: seq<Packet>) {
    if history == [] then []
    else
      var last := |history| - 1;
      DroppedPackets(history[..last]) + if history[last].stored then [] else [history[last].packet]
  }

  /**
   Every point that arrived is in exactly one place, in the order of arrival: handed over in a frame, in a frame on
   its way, or still gathered. Of the frames handed over, those that were not dropped are the published ones followed
   by the ones in the ring.
   */
  lemma PointsAreConserved(s: State, actions: seq<Action>, i: nat)
    requires Start(s) && i < |Run(s, actions).lidars|
    ensures
      var t := Run(s, actions);
      var l := t.lidars[i];
      && l.appended == HandedOver(l.history) + InFlight(t.producer, i) + l.gathered
      && Stored(l.history) == l.published + InRing(l.ring)
      && |l.history| == |l.published| + |InRing(l.ring)| + |DroppedPackets(l.history)|
  {
    RunHolds(s, actions);
    var t := Run(s, actions);
    assert Kept(t.lidars[i], InFlight(t.producer, i));
    StoredOrDropped(t.lidars[i].history);
  }

  lemma {:induction false} StoredOrDropped(history: seq<Attempt>)
    ensures |history| == |Stored(history)| + |DroppedPackets(history)|
    ensures multiset(Stored(history)) + multiset(DroppedPackets(history)) == multiset(Packets(history))
  {
    if history != [] {
      StoredOrDropped(history[..|history| - 1]);
    }
  }

  function Packets(history: seq<Attempt>): (s: seq<Packet>) {
    if history == [] then []
    else
      var last := |history| - 1;
      Packets(history[..last]) + [history[last].packet]
  }

  /** A published frame has points, and its base time is the time of its first point. */
  lemma PublishedIsStamped(s: State, actions: seq<Action>, i: nat, k: nat)
    requires Start(s) && i < |Run(s, actions).lidars| && k < |Run(s, actions).lidars[i].published|
    ensures
      var packet := Run(s, actions).lidars[i].published[k];
      packet.points != [] && packet.baseTime == packet.points[0].offsetTime
  {
    RunHolds(s, actions);
    var t := Run(s, actions);
    var l := t.lidars[i];
    assert Kept(l, InFlight(t.producer, i));
    assert Stored(l.history)[k] == l.published[k];
    StoredPacketStamped(l.history, l.published[k]);
  }

  // ---------------------------------------------------------------- The frame's size

  predicate FrameFits(s: State) {
    s.producer.Framing? ==> |s.producer.frame| + |s.producer.todo| <= |s.lidars|
  }

  lemma StepFits(s: State, a: Action)
    requires FrameFits(s)
    ensures FrameFits(Do(s, a)) && |Do(s, a).lidars| == |s.lidars|
  {
    if a.StartFrame? && Distinct(a.order) && forall i | i in a.order :: i < |s.lidars| {
      DistinctFit(a.order, |s.lidars|);
    }
  }

  function Below(n: nat): (s: set<nat>)
    ensures |s| == n && forall i: nat :: i in s <==> i < n
  {
    if n == 0 then {} else Below(n - 1) + {n - 1}
  }

  /** Different numbers below `n` are at most `n` many. */
  lemma DistinctFit(order: seq<nat>, n: nat)
    requires Distinct(order) && forall i | i in order :: i < n
    ensures |order| <= n
  {
    DistinctCount(order);
    assert Elements(order) <= Below(n);
    SubsetIsSmaller(Elements(order), Below(n));
  }

  lemma {:induction false} DistinctCount(order: seq<nat>)
    requires Distinct(order)
    ensures |Elements(order)| == |order|
  {
    if order != [] {
      var last := |order| - 1;
      DistinctCount(order[..last]);
      assert order[last] !in order[..last];
      assert Elements(order) == Elements(order[..last]) + {order[last]};
    }
  }

  function Elements(order: seq<nat>): (s: set<nat>)
    ensures forall i :: i in s <==> i in order
  {
    if order == [] then {} else Elements(order[..|order| - 1]) + {order[|order| - 1]}
  }

  lemma {:induction false} SubsetIsSmaller(a: set<nat>, b: set<nat>)
    requires a <= b
    ensures |a| <= |b|
    decreases |a|
  {
    if a != {} {
      var x :| x in a;
      SubsetIsSmaller(a - {x}, b - {x});
    }
  }

  /** The frame under construction never needs more entries than there are lidars: 32 suffice for 32. */
  lemma {:induction false} FrameNeverOverflows(s: State, actions: seq<Action>)
    requires Start(s)
    ensures FrameFits(Run(s, actions)) && |Run(s, actions).lidars| == |s.lidars|
    decreases |actions|
  {
    if actions != [] {
      FrameNeverOverflows(s, actions[..|actions| - 1]);
      StepFits(Run(s, actions[..|actions| - 1]), actions[|actions| - 1]);
    }
  }

  // ---------------------------------------------------------------- Draining

  /** What the publishing thread does next. */
  function Own(s: State): (a: Action) {
    match s.consumer
    case Waiting => Wait
    case Visiting(_) => Visit
    case Polling(_) => Poll
    case Reading(_) => ReadTime
    case Copying(_, _) => ReadPoints
    case Updating(_, _) => ReleaseSlot
  }

  predicate IsOwn(a: Action) {
    a.Wait? || a.Visit? || a.Poll? || a.ReadTime? || a.ReadPoints? || a.ReleaseSlot?
  }

  /** How far the publishing thread is from its wait. */
  function Left(s: State): (n: int) {
    match s.consumer
    case Waiting => 0
    case Visiting(i) => 2 * (|s.lidars| - i) + 2
    case Polling(i) => 2 * (|s.lidars| - i) + 1
    case Reading(i) => 2 * (|s.lidars| - i) + 1
    case Copying(i, _) => 2 * (|s.lidars| - i) + 1
    case Updating(i, _) => 2 * (|s.lidars| - i) + 1
  }

  function Here(s: State): (n: nat) {
    if !s.consumer.Waiting? && s.consumer.lidar < |s.lidars| then Used(s.lidars[s.consumer.lidar].ring) else 0
  }

  function Stage(c: Consumer): (n: nat) {
    match c
    case Waiting => 0
    case Visiting(_) => 0
    case Polling(_) => 3
    case Reading(_) => 2
    case Copying(_, _) => 1
    case Updating(_, _) => 0
  }

  lemma OwnStepDescends(s: State)
    requires Sound(s) && !(s.consumer.Waiting? && s.count <= 0)
    ensures
      var t := Do(s, Own(s));
      && Left(s) >= 0 && Left(t) >= 0 && t.producer == s.producer
      && (t.count < s.count || (t.count == s.count && (Left(t) < Left(s) ||
         (Left(t) == Left(s) && (Here(t) < Here(s) || (Here(t) == Here(s) && Stage(t.consumer) < Stage(s.consumer)))))))
  {
    if s.consumer.Updating? {
      ReleaseDescends(s);
    }
  }

  lemma ReleaseDescends(s: State)
    requires Sound(s) && s.consumer.Updating?
    ensures
      var t := DoReleaseSlot(s);
      t.count == s.count && t.producer == s.producer && Left(t) == Left(s) >= 0 && Here(t) < Here(s)
  {
    UsedAfterRelease(s.lidars[s.consumer.lidar].ring);
  }

  /** From any reachable state the publishing thread, left to itself, comes back to its wait with the count at zero. */
  lemma Returns(s: State, actions: seq<Action>) returns (more: seq<Action>)
    requires Start(s)
    ensures forall k | 0 <= k < |more| :: IsOwn(more[k])
    ensures
      var t := Run(s, actions + more);
      t.consumer.Waiting? && t.count == 0 && t.producer == Run(s, actions).producer
  {
    var t := Run(s, actions);
    RunHolds(s, actions);
    more := ReturnsFrom(t, t.count, Left(t), Here(t), Stage(t.consumer));
    RunOn(s, actions, more);
  }

  lemma {:induction false} ReturnsFrom(t: State, count: int, left: int, here: nat, stage: nat)
    returns (more: seq<Action>)
    requires Sound(t) && Awake(t)
    requires count == t.count && left == Left(t) && here == Here(t) && stage == Stage(t.consumer)
    ensures forall k | 0 <= k < |more| :: IsOwn(more[k])
    ensures
      var u := Run(t, more);
      u.consumer.Waiting? && u.count == 0 && u.producer == t.producer
    decreases count, left, here, stage
  {
    if t.consumer.Waiting? && t.count == 0 {
      more := [];
    } else {
      var a := Own(t);
      var u := Do(t, a);
      OwnStepDescends(t);
      StepSound(t, a);
      StepAwake(t, a);
      var rest := ReturnsFrom(u, u.count, Left(u), Here(u), Stage(u.consumer));
      more := [a] + rest;
      RunFirst(t, a, rest);
    }
  }

  lemma RunFirst(t: State, a: Action, rest: seq<Action>)
    ensures Run(t, [a] + rest) == Run(Do(t, a), rest)
  {
    RunOn(t, [a], rest);
    RunStep(t, [], a);
    assert [] + [a] == [a];
  }

  /** A run in two parts. */
  lemma {:induction false} RunOn(s: State, actions: seq<Action>, more: seq<Action>)
    ensures Run(s, actions + more) == Run(Run(s, actions), more)
    decreases |more|
  {
    if more == [] {
      assert actions + more == actions;
    } else {
      var last := |more| - 1;
      assert actions + more == actions + more[..last] + [more[last]];
      RunStep(s, actions + more[..last], more[last]);
      RunOn(s, actions, more[..last]);
    }
  }

  lemma RunStep(s: State, actions: seq<Action>, a: Action)
    ensures Run(s, actions + [a]) == Do(Run(s, actions), a)
  {
    assert (actions + [a])[..|actions|] == actions;
  }

  /**
   Nothing stays behind: whenever the gathering thread is between frames, steps of the publishing thread alone lead
   to a state in which every packet stored by a sampling lidar has been published, in order.
   */
  lemma EverythingIsPublished(s: State, actions: seq<Action>) returns (more: seq<Action>)
    requires Start(s) && Run(s, actions).producer.Idle?
    ensures forall k | 0 <= k < |more| :: IsOwn(more[k])
    ensures
      var t := Run(s, actions + more);
      forall i | 0 <= i < |t.lidars| && t.lidars[i].sampling :: t.lidars[i].published == Stored(t.lidars[i].history)
  {
    more := Returns(s, actions);
    var t := Run(s, actions + more);
    NoLostWakeUp(s, actions + more);
    forall i: nat | i < |t.lidars| && t.lidars[i].sampling
      ensures t.lidars[i].published == Stored(t.lidars[i].history)
    {
      PointsAreConserved(s, actions + more, i);
    }
  }
}
