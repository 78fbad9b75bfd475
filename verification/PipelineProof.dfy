/**
 What every interleaving of the two threads keeps: the rings stay first-in first-out sequences, no wake-up is
 lost, and every point is at all times in exactly one place.
 */
module PipelineProof {

  import opened Ring
  import opened Pipeline

  // ---------------------------------------------------------------- The logs

  /** The packets that went into the ring, in order. */
  function Stored(history: seq<Attempt>): (s: seq<Packet>) {
    if history == [] then []
    else
      var last := |history| - 1;
      Stored(history[..last]) + if history[last].stored then [history[last].packet] else []
  }

  /** The points of all frames handed over, in order. */
  function HandedOver(history: seq<Attempt>): (s: seq<Point>) {
    if history == [] then []
    else
      var last := |history| - 1;
      HandedOver(history[..last]) + history[last].packet.points
  }

  /** The points of one lidar in frames that are on their way to the storage. */
  function InFrames(frames: seq<Delivery>, i: nat): (s: seq<Point>) {
    if frames == [] then []
    else
      var last := |frames| - 1;
      InFrames(frames[..last], i) + if frames[last].lidar == i then frames[last].packet.points else []
  }

  function InFlight(p: Producer, i: nat): (s: seq<Point>) {
    match p
    case Idle => []
    case Framing(_, frame) => InFrames(frame, i)
    case Delivering(rest) => InFrames(rest, i)
    case Writing(j, packet, rest) => (if j == i then packet.points else []) + InFrames(rest, i)
    case Publishing(j, packet, rest) => (if j == i then packet.points else []) + InFrames(rest, i)
    case TestingEmpty(_, rest) => InFrames(rest, i)
    case ReadingCount(rest) => InFrames(rest, i)
    case Signalling(rest) => InFrames(rest, i)
  }

  lemma LogGrows(history: seq<Attempt>, attempt: Attempt)
    ensures Stored(history + [attempt]) == Stored(history) + if attempt.stored then [attempt.packet] else []
    ensures HandedOver(history + [attempt]) == HandedOver(history) + attempt.packet.points
  {
    assert (history + [attempt])[..|history|] == history;
  }

  lemma FramesGrow(frames: seq<Delivery>, d: Delivery, i: nat)
    ensures InFrames(frames + [d], i) == InFrames(frames, i) + if d.lidar == i then d.packet.points else []
  {
    assert (frames + [d])[..|frames|] == frames;
  }

  lemma {:induction false} FramesSplit(frames: seq<Delivery>, i: nat)
    requires frames != []
    ensures InFrames(frames, i)
         == (if frames[0].lidar == i then frames[0].packet.points else []) + InFrames(frames[1..], i)
    decreases |frames|
  {
    var last := |frames| - 1;
    if last > 0 {
      FramesSplit(frames[..last], i);
      assert frames[1..][..last - 1] == frames[..last][1..];
    }
  }

  // ---------------------------------------------------------------- The invariant

  /** A packet is never empty, and its base time is the time of its first point. */
  predicate Stamped(packet: Packet) {
    packet.points != [] && packet.baseTime == packet.points[0].offsetTime
  }

  ghost predicate RingOk(r: Ring) {
    r == Ring(0, 0, 0, []) || Good(r)
  }

  /** The packets in the ring; a ring without slots has none. */
  ghost function InRing(r: Ring): (s: seq<Packet>) {
    if HasSlots(r) then Fifo(r) else []
  }

  /** What is kept for one lidar whose points in flight are `flight`. */
  ghost predicate Kept(l: Lidar, flight: seq<Point>) {
    && RingOk(l.ring)
    && Stored(l.history) == l.published + InRing(l.ring)
    && l.appended == HandedOver(l.history) + flight + l.gathered
    && (forall k | 0 <= k < |l.history| :: Stamped(l.history[k].packet))
  }

  predicate FrameOk(s: State, frame: seq<Delivery>) {
    forall k | 0 <= k < |frame| :: frame[k].lidar < |s.lidars| && Stamped(frame[k].packet)
  }

  /** The gathering thread writes only into a ring with room. */
  ghost predicate ProducerOk(s: State) {
    match s.producer
    case Idle => true
    case Framing(todo, frame) => FrameOk(s, frame) && forall i | i in todo :: i < |s.lidars|
    case Delivering(rest) => FrameOk(s, rest)
    case Writing(i, packet, rest) => FrameOk(s, rest) && Stamped(packet) && HasRoom(s, i)
    case Publishing(i, packet, rest) =>
      && FrameOk(s, rest) && Stamped(packet) && HasRoom(s, i)
      && s.lidars[i].ring.slots[s.lidars[i].ring.wr % s.lidars[i].ring.size] == packet
    case TestingEmpty(i, rest) => FrameOk(s, rest) && i < |s.lidars|
    case ReadingCount(rest) => FrameOk(s, rest)
    case Signalling(rest) => FrameOk(s, rest)
  }

  ghost predicate HasRoom(s: State, i: nat) {
    i < |s.lidars| && HasSlots(s.lidars[i].ring) && Used(s.lidars[i].ring) < s.lidars[i].ring.size
  }

  ghost predicate HasPacket(s: State, i: nat) {
    i < |s.lidars| && HasSlots(s.lidars[i].ring) && Used(s.lidars[i].ring) > 0
  }

  /** The publishing thread reads only a packet that is in the ring, and what it has copied is still there. */
  ghost predicate ConsumerOk(s: State) {
    match s.consumer
    case Waiting => true
    case Visiting(i) => i <= |s.lidars|
    case Polling(i) => i < |s.lidars| && HasSlots(s.lidars[i].ring)
    case Reading(i) => HasPacket(s, i)
    case Copying(i, baseTime) => HasPacket(s, i) && ReadSlot(s.lidars[i].ring).baseTime == baseTime
    case Updating(i, packet) => HasPacket(s, i) && ReadSlot(s.lidars[i].ring) == packet
  }

  ghost predicate Sound(s: State) {
    && (forall i: nat | i < |s.lidars| :: Kept(s.lidars[i], InFlight(s.producer, i)))
    && ProducerOk(s) && ConsumerOk(s)
  }

  // ---------------------------------------------------------------- Each step keeps it

  /** A step that changes one lidar at most. */
  lemma OneLidar(s: State, t: State, i: nat)
    requires Sound(s) && i < |s.lidars| == |t.lidars| && t.lidars == s.lidars[i := t.lidars[i]]
    requires Kept(t.lidars[i], InFlight(t.producer, i))
    requires forall j: nat | j < |s.lidars| && j != i :: InFlight(t.producer, j) == InFlight(s.producer, j)
    requires ProducerOk(t) && ConsumerOk(t)
    ensures Sound(t)
  {
    forall j: nat | j < |t.lidars|
      ensures Kept(t.lidars[j], InFlight(t.producer, j))
    {
      if j != i {
        assert t.lidars[j] == s.lidars[j];
        assert Kept(s.lidars[j], InFlight(s.producer, j));
      }
    }
  }

  /** Whatever a reader of the first ring may see, it sees in the second. */
  ghost predicate SeenAlike(r: Ring, q: Ring) {
    HasSlots(r) ==> HasSlots(q) && (Used(r) > 0 ==> Used(q) > 0 && ReadSlot(q) == ReadSlot(r))
  }

  lemma ReaderUndisturbed(s: State, t: State, i: nat)
    requires ConsumerOk(s) && t.consumer == s.consumer
    requires i < |s.lidars| == |t.lidars| && t.lidars == s.lidars[i := t.lidars[i]]
    requires SeenAlike(s.lidars[i].ring, t.lidars[i].ring)
    ensures ConsumerOk(t)
  {
  }

  lemma AppendedKept(l: Lidar, point: Point, flight: seq<Point>)
    requires Kept(l, flight)
    ensures Kept(l.(appended := l.appended + [point], gathered := l.gathered + [point]), flight)
  {
  }

  lemma AppendKeeps(s: State, i: nat, point: Point)
    requires Sound(s)
    ensures Sound(DoAppend(s, i, point))
  {
    if s.producer.Idle? && i < |s.lidars| {
      var t := DoAppend(s, i, point);
      assert Kept(s.lidars[i], InFlight(s.producer, i));
      AppendedKept(s.lidars[i], point, InFlight(s.producer, i));
      ReaderUndisturbed(s, t, i);
      OneLidar(s, t, i);
    }
  }

  lemma StartFrameKeeps(s: State, order: seq<nat>)
    requires Sound(s)
    ensures Sound(DoStartFrame(s, order))
  {
    SameLidars(s, DoStartFrame(s, order));
  }

  /** A step that changes no lidar. */
  lemma SameLidars(s: State, t: State)
    requires Sound(s) && t.lidars == s.lidars
    requires forall j: nat | j < |s.lidars| :: InFlight(t.producer, j) == InFlight(s.producer, j)
    requires ProducerOk(t) && ConsumerOk(t)
    ensures Sound(t)
  {
    forall j: nat | j < |t.lidars|
      ensures Kept(t.lidars[j], InFlight(t.producer, j))
    {
      assert Kept(s.lidars[j], InFlight(s.producer, j));
    }
  }

  lemma TakePointsKeeps(s: State)
    requires Sound(s)
    ensures Sound(DoTakePoints(s))
  {
    if s.producer.Framing? {
      var todo := s.producer.todo;
      if todo != [] {
        assert todo[0] in todo;
        if s.lidars[todo[0]].gathered != [] {
          TakeOne(s, todo[0], DoTakePoints(s));
          return;
        }
        assert forall i | i in todo[1..] :: i in todo;
      }
      SameLidars(s, DoTakePoints(s));
    }
  }

  lemma TakeOne(s: State, i: nat, t: State)
    requires Sound(s) && s.producer.Framing? && s.producer.todo != [] && i == s.producer.todo[0] < |s.lidars|
    requires s.lidars[i].gathered != [] && t == DoTakePoints(s)
    ensures Sound(t)
  {
    var l, frame := s.lidars[i], s.producer.frame;
    assert Kept(l, InFlight(s.producer, i));
    var d := Delivery(i, Packet(l.gathered[0].offsetTime, l.gathered));
    forall j: nat
      ensures InFrames(frame + [d], j) == InFrames(frame, j) + if i == j then l.gathered else []
    {
      FramesGrow(frame, d, j);
    }
    TakenKept(l, InFrames(frame, i), InFrames(frame + [d], i));
    ReaderUndisturbed(s, t, i);
    FramedOk(s, t, d);
    OneLidar(s, t, i);
  }

  lemma TakenKept(l: Lidar, flight: seq<Point>, longer: seq<Point>)
    requires Kept(l, flight) && longer == flight + l.gathered
    ensures Kept(l.(gathered := []), longer)
  {
  }

  lemma FramedOk(s: State, t: State, d: Delivery)
    requires ProducerOk(s) && s.producer.Framing? && s.producer.todo != [] && |t.lidars| == |s.lidars|
    requires t.producer == Framing(s.producer.todo[1..], s.producer.frame + [d])
    requires d.lidar < |s.lidars| && Stamped(d.packet)
    ensures ProducerOk(t)
  {
    assert forall i | i in t.producer.todo :: i in s.producer.todo;
  }

  lemma NewRingOk(k: nat)
    requires k < 32
    ensures Good(NewRing(Pow2(k))) && InRing(NewRing(Pow2(k))) == []
  {
    assert IsSize(Pow2(k));
  }

  lemma InitRingKeeps(s: State, k: nat)
    requires Sound(s)
    ensures Sound(DoInitRing(s, k))
  {
    var t := DoInitRing(s, k);
    if t != s {
      var i := s.producer.rest[0].lidar;
      assert Kept(s.lidars[i], InFlight(s.producer, i));
      NewRingOk(k);
      OneLidar(s, t, i);
    }
  }

  lemma DropKeeps(l: Lidar, packet: Packet, flight: seq<Point>)
    requires Kept(l, packet.points + flight) && Stamped(packet)
    ensures Kept(Dropped(l, packet), flight)
  {
    LogGrows(l.history, Attempt(packet, false));
  }

  lemma DeliverKeeps(s: State)
    requires Sound(s)
    ensures Sound(DoDeliver(s))
  {
    if s.producer.Delivering? {
      var t := DoDeliver(s);
      var rest := s.producer.rest;
      if rest == [] {
        SameLidars(s, t);
      } else {
        var i := rest[0].lidar;
        assert Kept(s.lidars[i], InFlight(s.producer, i));
        forall j: nat
          ensures InFrames(rest, j) == (if i == j then rest[0].packet.points else []) + InFrames(rest[1..], j)
        {
          FramesSplit(rest, j);
        }
        DeliverToKeeps(s, t, i);
      }
    }
  }

  lemma DeliverToKeeps(s: State, t: State, i: nat)
    requires Sound(s) && s.producer.Delivering? && s.producer.rest != [] && s.producer.rest[0].lidar == i < |s.lidars|
    requires t == DeliverTo(s, i, s.producer.rest[0].packet, s.producer.rest[1..])
    requires forall j: nat ::
      InFrames(s.producer.rest, j)
      == (if i == j then s.producer.rest[0].packet.points else []) + InFrames(s.producer.rest[1..], j)
    ensures Sound(t)
  {
    var l, packet, rest := s.lidars[i], s.producer.rest[0].packet, s.producer.rest[1..];
    if !l.known {
      DroppedKeeps(s, t, i, rest);
    } else if l.ring.size > 0 && Used(l.ring) > l.ring.size - 1 {
      DroppedKeeps(s, t, i, rest);
    } else if l.ring.size > 0 {
      assert Kept(l, InFlight(s.producer, i));
      SameLidars(s, t);
    }
  }

  lemma DroppedKeeps(s: State, t: State, i: nat, rest: seq<Delivery>)
    requires Sound(s) && s.producer.Delivering? && s.producer.rest != [] && s.producer.rest[0].lidar == i < |s.lidars|
    requires rest == s.producer.rest[1..] && (t.producer == Delivering(rest) || t.producer == ReadingCount(rest))
    requires t.lidars == s.lidars[i := Dropped(s.lidars[i], s.producer.rest[0].packet)] && t.consumer == s.consumer
    requires forall j: nat ::
      InFrames(s.producer.rest, j)
      == (if i == j then s.producer.rest[0].packet.points else []) + InFrames(rest, j)
    ensures Sound(t)
  {
    var l, packet := s.lidars[i], s.producer.rest[0].packet;
    assert Kept(l, InFlight(s.producer, i));
    DropKeeps(l, packet, InFrames(rest, i));
    ReaderUndisturbed(s, t, i);
    OneLidar(s, t, i);
  }

  lemma SlotWriteKeeps(l: Lidar, packet: Packet, flight: seq<Point>)
    requires Kept(l, flight) && HasSlots(l.ring) && Used(l.ring) < l.ring.size
    ensures Kept(l.(ring := WriteSlot(l.ring, packet)), flight)
    ensures Used(l.ring) > 0 ==> ReadSlot(WriteSlot(l.ring, packet)) == ReadSlot(l.ring)
  {
    WritingIsUnseen(l.ring, packet);
  }

  lemma ScribbleKeeps(s: State, junk: Packet)
    requires Sound(s)
    ensures Sound(DoScribble(s, junk))
  {
    if s.producer.Writing? {
      var i := s.producer.lidar;
      assert Kept(s.lidars[i], InFlight(s.producer, i));
      SlotWriteKeeps(s.lidars[i], junk, InFlight(s.producer, i));
      OneLidar(s, DoScribble(s, junk), i);
    }
  }

  lemma FinishWriteKeeps(s: State)
    requires Sound(s)
    ensures Sound(DoFinishWrite(s))
  {
    if s.producer.Writing? {
      var i := s.producer.lidar;
      assert Kept(s.lidars[i], InFlight(s.producer, i));
      SlotWriteKeeps(s.lidars[i], s.producer.packet, InFlight(s.producer, i));
      OneLidar(s, DoFinishWrite(s), i);
    }
  }

  lemma PublishKeeps(l: Lidar, packet: Packet, flight: seq<Point>)
    requires Kept(l, packet.points + flight) && Stamped(packet)
    requires HasSlots(l.ring) && Used(l.ring) < l.ring.size && l.ring.slots[l.ring.wr % l.ring.size] == packet
    ensures SeenAlike(l.ring, Publish(l.ring))
    ensures Kept(l.(ring := Publish(l.ring), history := l.history + [Attempt(packet, true)]), flight)
  {
    PublishingAppends(l.ring);
    LogGrows(l.history, Attempt(packet, true));
  }

  lemma PublishIndexKeeps(s: State)
    requires Sound(s)
    ensures Sound(DoPublishIndex(s))
  {
    if s.producer.Publishing? {
      var i, packet, rest := s.producer.lidar, s.producer.packet, s.producer.rest;
      assert Kept(s.lidars[i], InFlight(s.producer, i));
      var t := DoPublishIndex(s);
      PublishKeeps(s.lidars[i], packet, InFrames(rest, i));
      ReaderUndisturbed(s, t, i);
      OneLidar(s, t, i);
    }
  }

  lemma TestEmptyKeeps(s: State)
    requires Sound(s)
    ensures Sound(DoTestEmpty(s))
  {
    SameLidars(s, DoTestEmpty(s));
  }

  lemma ReadCountKeeps(s: State)
    requires Sound(s)
    ensures Sound(DoReadCount(s))
  {
    SameLidars(s, DoReadCount(s));
  }

  lemma SignalKeeps(s: State)
    requires Sound(s)
    ensures Sound(DoSignal(s))
  {
    SameLidars(s, DoSignal(s));
  }

  lemma WaitKeeps(s: State)
    requires Sound(s)
    ensures Sound(DoWait(s))
  {
    SameLidars(s, DoWait(s));
  }

  lemma VisitKeeps(s: State)
    requires Sound(s)
    ensures Sound(DoVisit(s))
  {
    if s.consumer.Visiting? && s.consumer.lidar < |s.lidars| {
      var i := s.consumer.lidar;
      assert Kept(s.lidars[i], InFlight(s.producer, i));
    }
    SameLidars(s, DoVisit(s));
  }

  lemma PollKeeps(s: State)
    requires Sound(s)
    ensures Sound(DoPoll(s))
  {
    SameLidars(s, DoPoll(s));
  }

  lemma ReadingKeeps(s: State)
    requires Sound(s)
    ensures Sound(DoReadTime(s)) && Sound(DoReadPoints(s))
  {
    SameLidars(s, DoReadTime(s));
    SameLidars(s, DoReadPoints(s));
  }

  lemma {:induction false} StoredPacketStamped(history: seq<Attempt>, packet: Packet)
    requires forall k | 0 <= k < |history| :: Stamped(history[k].packet)
    requires packet in Stored(history)
    ensures Stamped(packet)
  {
    var last := |history| - 1;
    if packet in Stored(history[..last]) {
      StoredPacketStamped(history[..last], packet);
    }
  }

  lemma ReleaseKeeps(l: Lidar, flight: seq<Point>, packet: Packet)
    requires Kept(l, flight) && HasSlots(l.ring) && Used(l.ring) > 0 && ReadSlot(l.ring) == packet
    ensures packet.points != [] && HasSlots(Release(l.ring)) && Used(Release(l.ring)) == Used(l.ring) - 1
    ensures Kept(l.(ring := Release(l.ring), published := l.published + [packet]), flight)
  {
    ReleasingDropsOldest(l.ring);
    assert Stored(l.history)[|l.published|] == packet;
    StoredPacketStamped(l.history, packet);
    assert Stored(l.history) == l.published + [packet] + Fifo(Release(l.ring));
  }

  lemma ReleaseSlotKeeps(s: State)
    requires Sound(s)
    ensures Sound(DoReleaseSlot(s))
  {
    if s.consumer.Updating? {
      var i, packet := s.consumer.lidar, s.consumer.packet;
      assert Kept(s.lidars[i], InFlight(s.producer, i));
      ReleaseKeeps(s.lidars[i], InFlight(s.producer, i), packet);
      OneLidar(s, DoReleaseSlot(s), i);
    }
  }
}
