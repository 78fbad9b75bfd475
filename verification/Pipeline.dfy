/**
 The point-frame pipeline: one thread gathers points per lidar and pushes frames into the lidars' rings, another
 waits on a semaphore and drains the rings. Both advance by atomic steps, interleaved in any order.
 */
module Pipeline {

  import opened Ring

  // ---------------------------------------------------------------- State

  /** A frame that was handed to the storage: it went into the ring or was dropped. */
  datatype Attempt = Attempt(packet: Packet, stored: bool)

  /**
   One lidar: its connection state, whether the index cache knows its handle, every point that ever arrived, the
   points gathered since the last frame, its ring (without slots until it is first used), every frame handed to the
   storage and every packet published.
   */
  datatype Lidar = Lidar(
    sampling: bool, known: bool, appended: seq<Point>, gathered: seq<Point>, ring: Ring,
    history: seq<Attempt>, published: seq<Packet>)

  datatype Delivery = Delivery(lidar: nat, packet: Packet)

  /** Where the gathering thread is. */
  datatype Producer =
    | Idle
    | Framing(todo: seq<nat>, frame: seq<Delivery>)
    | Delivering(rest: seq<Delivery>)
    | Writing(lidar: nat, packet: Packet, rest: seq<Delivery>)
    | Publishing(lidar: nat, packet: Packet, rest: seq<Delivery>)
    | TestingEmpty(lidar: nat, rest: seq<Delivery>)
    | ReadingCount(rest: seq<Delivery>)
    | Signalling(rest: seq<Delivery>)

  /** Where the publishing thread is. */
  datatype Consumer =
    | Waiting
    | Visiting(lidar: nat)
    | Polling(lidar: nat)
    | Reading(lidar: nat)
    | Copying(lidar: nat, baseTime: nat)
    | Updating(lidar: nat, packet: Packet)

  datatype State = State(lidars: seq<Lidar>, count: int, producer: Producer, consumer: Consumer)

  /** A step of either thread; a step that is not the next of its thread changes nothing. */
  datatype Action =
    | Append(lidar: nat, point: Point)
    | StartFrame(order: seq<nat>)
    | TakePoints
    | InitRing(k: nat)
    | Deliver
    | Scribble(junk: Packet)
    | FinishWrite
    | PublishIndex
    | TestEmpty
    | ReadCount
    | Signal
    | Wait
    | Visit
    | Poll
    | ReadTime
    | ReadPoints
    | ReleaseSlot

  // ---------------------------------------------------------------- Steps of the gathering thread

  /** A point of a raw packet arrives. */
  function DoAppend(s: State, i: nat, point: Point): (t: State) {
    if s.producer.Idle? && i < |s.lidars| then
      var l := s.lidars[i];
      s.(lidars := s.lidars[i := l.(appended := l.appended + [point], gathered := l.gathered + [point])])
    else
      s
  }

  predicate Distinct(order: seq<nat>) {
    forall i, j | 0 <= i < j < |order| :: order[i] != order[j]
  }

  /** A frame is due: of one lidar when the clocks are synchronized, of all when the timer of the driver fires. */
  function DoStartFrame(s: State, order: seq<nat>): (t: State) {
    if s.producer.Idle? && Distinct(order) && (forall i | i in order :: i < |s.lidars|) then
      s.(producer := Framing(order, []))
    else
      s
  }

  /**
   The next lidar's points move into the frame, stamped with the time of the first; a lidar without points is
   skipped.
   */
  function DoTakePoints(s: State): (t: State) {
    if s.producer.Framing? then
      var todo, frame := s.producer.todo, s.producer.frame;
      if todo == [] then s.(producer := Delivering(frame))
      else if todo[0] >= |s.lidars| then s
      else if s.lidars[todo[0]].gathered == [] then s.(producer := Framing(todo[1..], frame))
      else
        var l := s.lidars[todo[0]];
        var packet := Packet(l.gathered[0].offsetTime, l.gathered);
        State(s.lidars[todo[0] := l.(gathered := [])], s.count,
              Framing(todo[1..], frame + [Delivery(todo[0], packet)]), s.consumer)
    else
      s
  }

  /** A known lidar's ring gets its slots, a power of two of them, before its first packet. */
  function DoInitRing(s: State, k: nat): (t: State) {
    if s.producer.Delivering? && s.producer.rest != [] && k < 32 then
      var i := s.producer.rest[0].lidar;
      if i < |s.lidars| && s.lidars[i].known && s.lidars[i].ring.size == 0 then
        s.(lidars := s.lidars[i := s.lidars[i].(ring := NewRing(Pow2(k)))])
      else
        s
    else
      s
  }

  function NewRing(size: nat): (r: Ring) {
    Ring(size, 0, 0, seq(size, _ => Packet(0, [])))
  }

  /**
   The next packet of the frame: its lidar is looked up, and its ring is tested. An unknown lidar or a full ring
   drops the packet; the full ring still asks for a signal.
   */
  function DoDeliver(s: State): (t: State) {
    if s.producer.Delivering? then
      var rest := s.producer.rest;
      if rest == [] then s.(producer := Idle)
      else if rest[0].lidar >= |s.lidars| then s
      else DeliverTo(s, rest[0].lidar, rest[0].packet, rest[1..])
    else
      s
  }

  function DeliverTo(s: State, i: nat, packet: Packet, rest: seq<Delivery>): (t: State)
    requires i < |s.lidars|
  {
    var l := s.lidars[i];
    if !l.known then s.(lidars := s.lidars[i := Dropped(l, packet)], producer := Delivering(rest))
    else if l.ring.size == 0 then s
    else if Used(l.ring) > l.ring.size - 1 then
      s.(lidars := s.lidars[i := Dropped(l, packet)], producer := ReadingCount(rest))
    else s.(producer := Writing(i, packet, rest))
  }

  function Dropped(l: Lidar, packet: Packet): (m: Lidar) {
    l.(history := l.history + [Attempt(packet, false)])
  }

  /** Copying into the slot takes many steps; until it ends the slot may hold anything. */
  function DoScribble(s: State, junk: Packet): (t: State) {
    if s.producer.Writing? then InSlot(s, s.producer.lidar, junk) else s
  }

  function InSlot(s: State, i: nat, packet: Packet): (t: State) {
    if i < |s.lidars| && s.lidars[i].ring.size > 0 && |s.lidars[i].ring.slots| == s.lidars[i].ring.size then
      s.(lidars := s.lidars[i := s.lidars[i].(ring := WriteSlot(s.lidars[i].ring, packet))])
    else
      s
  }

  function DoFinishWrite(s: State): (t: State) {
    if s.producer.Writing? then
      var p := s.producer;
      InSlot(s, p.lidar, p.packet).(producer := Publishing(p.lidar, p.packet, p.rest))
    else
      s
  }

  function DoPublishIndex(s: State): (t: State) {
    if s.producer.Publishing? && s.producer.lidar < |s.lidars| then
      var p := s.producer;
      var l := s.lidars[p.lidar];
      s.(lidars := s.lidars[p.lidar := l.(ring := Publish(l.ring), history := l.history + [Attempt(p.packet, true)])],
         producer := TestingEmpty(p.lidar, p.rest))
    else
      s
  }

  function DoTestEmpty(s: State): (t: State) {
    if s.producer.TestingEmpty? && s.producer.lidar < |s.lidars| then
      var ring := s.lidars[s.producer.lidar].ring;
      if ring.rd == ring.wr then s.(producer := Delivering(s.producer.rest))
      else s.(producer := ReadingCount(s.producer.rest))
    else
      s
  }

  function DoReadCount(s: State): (t: State) {
    if s.producer.ReadingCount? then
      if s.count <= 0 then s.(producer := Signalling(s.producer.rest)) else s.(producer := Delivering(s.producer.rest))
    else
      s
  }

  function DoSignal(s: State): (t: State) {
    if s.producer.Signalling? then s.(count := s.count + 1, producer := Delivering(s.producer.rest)) else s
  }

  // ---------------------------------------------------------------- Steps of the publishing thread

  function DoWait(s: State): (t: State) {
    if s.consumer.Waiting? && s.count > 0 then s.(count := s.count - 1, consumer := Visiting(0)) else s
  }

  /** The next lidar is drained when it is sampling and its ring has slots; after the last the thread waits again. */
  function DoVisit(s: State): (t: State) {
    if s.consumer.Visiting? then
      var i := s.consumer.lidar;
      if i >= |s.lidars| then s.(consumer := Waiting)
      else if !s.lidars[i].sampling || s.lidars[i].ring.size == 0 then s.(consumer := Visiting(i + 1))
      else s.(consumer := Polling(i))
    else
      s
  }

  function DoPoll(s: State): (t: State) {
    if s.consumer.Polling? && s.consumer.lidar < |s.lidars| then
      var i := s.consumer.lidar;
      if s.lidars[i].ring.rd == s.lidars[i].ring.wr then s.(consumer := Visiting(i + 1)) else s.(consumer := Reading(i))
    else
      s
  }

  predicate HasSlots(r: Ring) {
    r.size > 0 && |r.slots| == r.size
  }

  /** The copy out of the slot takes the base time first and the points later. */
  function DoReadTime(s: State): (t: State) {
    if s.consumer.Reading? && s.consumer.lidar < |s.lidars| && HasSlots(s.lidars[s.consumer.lidar].ring) then
      s.(consumer := Copying(s.consumer.lidar, ReadSlot(s.lidars[s.consumer.lidar].ring).baseTime))
    else
      s
  }

  function DoReadPoints(s: State): (t: State) {
    if s.consumer.Copying? && s.consumer.lidar < |s.lidars| && HasSlots(s.lidars[s.consumer.lidar].ring) then
      var points := ReadSlot(s.lidars[s.consumer.lidar].ring).points;
      s.(consumer := Updating(s.consumer.lidar, Packet(s.consumer.baseTime, points)))
    else
      s
  }

  /** The slot is released and the packet published, unless it has no points. */
  function DoReleaseSlot(s: State): (t: State) {
    if s.consumer.Updating? && s.consumer.lidar < |s.lidars| then
      var c := s.consumer;
      var l := s.lidars[c.lidar];
      var published := if c.packet.points == [] then l.published else l.published + [c.packet];
      s.(lidars := s.lidars[c.lidar := l.(ring := Release(l.ring), published := published)],
         consumer := Polling(c.lidar))
    else
      s
  }

  function Do(s: State, a: Action): (t: State) {
    match a
    case Append(i, point) => DoAppend(s, i, point)
    case StartFrame(order) => DoStartFrame(s, order)
    case TakePoints => DoTakePoints(s)
    case InitRing(k) => DoInitRing(s, k)
    case Deliver => DoDeliver(s)
    case Scribble(junk) => DoScribble(s, junk)
    case FinishWrite => DoFinishWrite(s)
    case PublishIndex => DoPublishIndex(s)
    case TestEmpty => DoTestEmpty(s)
    case ReadCount => DoReadCount(s)
    case Signal => DoSignal(s)
    case Wait => DoWait(s)
    case Visit => DoVisit(s)
    case Poll => DoPoll(s)
    case ReadTime => DoReadTime(s)
    case ReadPoints => DoReadPoints(s)
    case ReleaseSlot => DoReleaseSlot(s)
  }

  function Run(s: State, actions: seq<Action>): (t: State)
    decreases |actions|
  {
    if actions == [] then s else Do(Run(s, actions[..|actions| - 1]), actions[|actions| - 1])
  }

  /** Nothing has arrived, no ring has slots, the semaphore is at zero and both threads are at their beginning. */
  predicate Start(s: State) {
    && s.count == 0 && s.producer.Idle? && s.consumer.Waiting?
    && forall i | 0 <= i < |s.lidars| :: Unused(s.lidars[i])
  }

  predicate Unused(l: Lidar) {
    l.appended == [] && l.gathered == [] && l.ring == Ring(0, 0, 0, []) && l.history == [] && l.published == []
  }
}
