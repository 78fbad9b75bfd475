/**
 The packet queue object of one lidar, the semaphore, and the step that stores a packet of points.
 */
module PacketQueue {

  import opened Ring

  class LidarDataQueue {

    var storagePacket: array?<Packet>
    var rdIdx: index
    var wrIdx: index
    var size: nat
    var mask: nat

    ghost function View(): (r: Ring)
      reads this, storagePacket
      requires storagePacket != null
    {
      Ring(size, rdIdx, wrIdx, storagePacket[..])
    }

    /** A queue whose storage has been allocated. */
    ghost predicate Ready()
      reads this, storagePacket
    {
      storagePacket != null && mask == size - 1 && Good(View())
    }

    /** The packets in the queue, oldest first. */
    ghost function Contents(): (s: seq<Packet>)
      reads this, storagePacket
      requires Ready()
    {
      Fifo(View())
    }

    constructor ()
      ensures storagePacket == null && rdIdx == wrIdx == size == mask == 0
    {
      storagePacket := null;
      rdIdx, wrIdx, size, mask := 0, 0, 0, 0;
    }

    /** Allocates the asked size rounded up to a power of two; above 2^31 there is none and the queue gets 2^31. */
    method InitQueue(queueSize: index) returns (ok: bool)
      modifies this
      ensures ok && Ready() && fresh(storagePacket) && Contents() == []
      ensures IsSize(queueSize) ==> size == queueSize
      ensures queueSize <= 0x8000_0000 ==>
        queueSize <= size && forall k: nat :: queueSize <= Pow2(k) ==> size <= Pow2(k)
      ensures queueSize > 0x8000_0000 ==> size == 0x8000_0000
    {
      var realSize := RoundedSize(queueSize);
      storagePacket := new Packet[realSize];
      rdIdx, wrIdx := 0, 0;
      size := realSize;
      mask := realSize - 1;
      ok := true;
    }

    /**
     Frees the storage but keeps the pointer to it: the queue is not ready for use, although a later look at the
     pointer does not tell.
     */
    method DeInitQueue() returns (ok: bool)
      modifies this`rdIdx, this`wrIdx, this`size, this`mask
      ensures ok && rdIdx == wrIdx == size == mask == 0 && !Ready()
      ensures storagePacket == old(storagePacket)
    {
      rdIdx, wrIdx, size, mask := 0, 0, 0, 0;
      ok := true;
    }

    /** Forgets all the packets. */
    method ResetQueue()
      requires Ready()
      modifies this`rdIdx, this`wrIdx
      ensures Ready() && Contents() == []
    {
      rdIdx, wrIdx := 0, 0;
    }

    function QueueUsedSize(): (n: nat)
      reads this
    {
      (wrIdx - rdIdx) % WORD
    }

    function QueueUnusedSize(): (n: nat)
      reads this
    {
      (size - QueueUsedSize()) % WORD
    }

    predicate QueueIsFull()
      reads this
    {
      (wrIdx - rdIdx) % WORD > mask
    }

    predicate QueueIsEmpty()
      reads this
    {
      rdIdx == wrIdx
    }

    /** The four questions about the indices, answered about the contents. */
    lemma QueueStatus()
      requires Ready()
      ensures QueueUsedSize() == |Contents()| && QueueUnusedSize() == size - |Contents()|
      ensures QueueIsFull() <==> |Contents()| == size
      ensures QueueIsEmpty() <==> Contents() == []
    {
      SizeBelowWord(size);
    }

    /** Copies the oldest packet and leaves it in the queue. */
    method QueuePrePop() returns (popped: bool, packet: Packet)
      requires Ready()
      ensures popped <==> Contents() != []
      ensures popped ==> packet == Contents()[0]
    {
      QueueStatus();
      packet := Packet(0, []);
      if QueueIsEmpty() {
        return false, packet;
      }
      MaskedIndex(rdIdx, size);
      ReleasingDropsOldest(View());
      packet := storagePacket[And(rdIdx, mask)];
      popped := true;
    }

    method QueuePopUpdate()
      requires Ready() && Contents() != []
      modifies this`rdIdx
      ensures Ready() && Contents() == old(Contents())[1..]
    {
      ReleasingDropsOldest(View());
      rdIdx := (rdIdx + 1) % WORD;
    }

    /** Takes the oldest packet, or says that there is none. */
    method QueuePop() returns (popped: bool, packet: Packet)
      requires Ready()
      modifies this`rdIdx
      ensures Ready()
      ensures popped <==> old(Contents()) != []
      ensures popped ==> old(Contents()) == [packet] + Contents()
      ensures !popped ==> Contents() == []
    {
      popped, packet := QueuePrePop();
      if !popped {
        return;
      }
      QueuePopUpdate();
    }

    /** Adds a packet behind the others; the caller has looked for room. */
    method QueuePushAny(points: seq<Point>, baseTime: nat)
      requires Ready() && |Contents()| < size
      modifies this`wrIdx, storagePacket
      ensures Ready() && size == old(size)
      ensures Contents() == old(Contents()) + [Packet(baseTime, points)]
    {
      MaskedIndex(wrIdx, size);
      WritingIsUnseen(View(), Packet(baseTime, points));
      PublishingAppends(WriteSlot(View(), Packet(baseTime, points)));
      storagePacket[And(wrIdx, mask)] := Packet(baseTime, points);
      wrIdx := (wrIdx + 1) % WORD;
      assert View() == Publish(WriteSlot(old(View()), Packet(baseTime, points)));
    }
  }

  method RoundedSize(queueSize: index) returns (realSize: nat)
    ensures IsSize(realSize)
    ensures IsSize(queueSize) ==> realSize == queueSize
    ensures queueSize <= 0x8000_0000 ==>
      queueSize <= realSize && forall k: nat :: queueSize <= Pow2(k) ==> realSize <= Pow2(k)
    ensures queueSize > 0x8000_0000 ==> realSize == 0x8000_0000
  {
    IsPowerOf2Meaning(queueSize);
    Pow2Of32();
    realSize := queueSize;
    if !IsPowerOf2(queueSize) {
      realSize := RoundupPowerOf2(queueSize);
      forall k: nat
        ensures queueSize != Pow2(k)
      {
      }
    } else {
      ghost var k: nat :| queueSize == Pow2(k);
      PowerBelowWord(k);
    }
  }

  lemma PowerBelowWord(k: nat)
    requires Pow2(k) < WORD
    ensures k < 32 && Pow2(k) <= 0x8000_0000
  {
    Pow2Of32();
    if k >= 32 {
      Pow2Grows(32, k);
    } else {
      Pow2Grows(k, 31);
    }
  }

  /** The masked index is the slot number. */
  lemma MaskedIndex(i: nat, size: nat)
    requires IsSize(size)
    ensures size > 0 && And(i, size - 1) == i % size
  {
    var k: nat :| k < 32 && size == Pow2(k);
    AndMask(i, k);
  }

  class Semaphore {

    var count: int

    constructor (count: int)
      ensures this.count == count
    {
      this.count := count;
    }

    method Signal()
      modifies this
      ensures count == old(count) + 1
    {
      count := count + 1;
    }

    /** The wait is over only when the count is positive. */
    method Wait()
      requires count > 0
      modifies this
      ensures count == old(count) - 1
    {
      count := count - 1;
    }
  }

  /**
   Stores a packet when there is room and drops it when not; either way the semaphore has been raised when its
   count was not positive. A queue without storage gets it first.
   */
  method PushLidarData(queue: LidarDataQueue, semaphore: Semaphore, queueSize: index, points: seq<Point>, baseTime: nat)
    requires queue.storagePacket != null ==> queue.Ready()
    modifies queue, queue.storagePacket, semaphore
    ensures queue.Ready()
    ensures old(queue.storagePacket) == null ==> queue.Contents() == [Packet(baseTime, points)]
    ensures old(queue.storagePacket) != null ==> queue.size == old(queue.size)
    ensures old(queue.storagePacket) != null ==>
      queue.Contents() ==
      if |old(queue.Contents())| < old(queue.size) then old(queue.Contents()) + [Packet(baseTime, points)]
      else old(queue.Contents())
    ensures semaphore.count == if old(semaphore.count) <= 0 then old(semaphore.count) + 1 else old(semaphore.count)
  {
    if queue.storagePacket == null {
      var _ := queue.InitQueue(queueSize);
    }
    queue.QueueStatus();
    SizeBelowWord(queue.size);
    if !queue.QueueIsFull() {
      queue.QueuePushAny(points, baseTime);
      queue.QueueStatus();
      if !queue.QueueIsEmpty() {
        if semaphore.count <= 0 {
          semaphore.Signal();
        }
      }
    } else {
      if semaphore.count <= 0 {
        semaphore.Signal();
      }
    }
  }
}
