/** The memory pool: blocks are cut off the head chunk one after the other and freed only all together. */
module Pool {
  import opened Bytes

  /** The chunk header, rounded up to the alignment. */
  const HEADER := 24

  /** Half the address space. No object is larger, and up to here no 64-bit sum of the allocator wraps. */
  const MAX_SIZE := 0x8000_0000_0000_0000

  /** A chunk at an address: its header, then `capacity` bytes, of which `size` are handed out. */
  datatype Chunk = Chunk(base: nat, capacity: nat, size: nat)

  function Data(c: Chunk): nat {
    c.base + HEADER
  }

  function Top(c: Chunk): nat {
    c.base + HEADER + c.size
  }

  function End(c: Chunk): nat {
    c.base + HEADER + c.capacity
  }

  /** Rounds up to a multiple of eight. */
  function Align(n: nat): (a: nat)
    ensures a % 8 == 0 && n <= a < n + 8
  {
    (n + 7) / 8 * 8
  }

  lemma AlignExact(n: nat)
    requires n % 8 == 0
    ensures Align(n) == n
  {
  }

  lemma AlignWithin(a: nat, b: nat)
    requires b <= MAX_SIZE
    ensures Align(b) <= MAX_SIZE && (b > 0 ==> Align(b) > 0)
    ensures Least(a, b) <= Least(Align(a), Align(b))
  {
  }

  lemma Multiples(a: nat, b: nat)
    requires a % 8 == 0 && b % 8 == 0
    ensures (a + b) % 8 == 0 && (a >= b ==> (a - b) % 8 == 0)
  {
  }

  function Least(a: nat, b: nat): nat {
    if a < b then a else b
  }

  lemma NoSumWraps(size: nat, c: Chunk, limit: nat)
    requires size <= MAX_SIZE && ChunkOk(c, limit) && limit < MAX_SIZE
    ensures size + 7 < 2 * MAX_SIZE && c.size + Align(size) < 2 * MAX_SIZE && HEADER + Align(size) < 2 * MAX_SIZE
  {
  }

  // ---------------------------------------------------------------- What always holds

  predicate Apart(a: nat, aEnd: nat, b: nat, bEnd: nat) {
    aEnd <= b || bEnd <= a
  }

  predicate ChunkOk(c: Chunk, limit: nat) {
    c.base > 0 && c.base % 8 == 0 && c.size <= c.capacity && c.size % 8 == 0 && End(c) <= limit
  }

  /** Chunks lie in memory, apart from each other. */
  ghost predicate ChunksOk(chunks: seq<Chunk>, limit: nat) {
    && (forall i | 0 <= i < |chunks| :: ChunkOk(chunks[i], limit))
    && forall i, j | 0 <= i < j < |chunks| :: Apart(chunks[i].base, End(chunks[i]), chunks[j].base, End(chunks[j]))
  }

  predicate InChunk(p: nat, n: nat, c: Chunk) {
    Data(c) <= p && p + n <= Top(c)
  }

  /** A block is aligned and lies in the handed-out part of one chunk. */
  ghost predicate BlockOk(p: nat, n: nat, chunks: seq<Chunk>) {
    p % 8 == 0 && n % 8 == 0 && n > 0 && exists i :: 0 <= i < |chunks| && InChunk(p, n, chunks[i])
  }

  /** The live blocks, by address with their sizes: each is in a chunk, and no two overlap. */
  ghost predicate BlocksOk(blocks: map<nat, nat>, chunks: seq<Chunk>) {
    && (forall p | p in blocks :: BlockOk(p, blocks[p], chunks))
    && forall p, q | p in blocks && q in blocks && p < q :: p + blocks[p] <= q
  }

  function Grown(chunks: seq<Chunk>, n: nat): (grown: seq<Chunk>)
    requires chunks != []
  {
    [chunks[0].(size := chunks[0].size + n)] + chunks[1..]
  }

  /** A block cut off a new chunk. */
  lemma GrownNew(chunks: seq<Chunk>, base: nat, capacity: nat, n: nat)
    ensures var more := [Chunk(base, capacity, 0)] + chunks;
      Grown(more, n) == [Chunk(base, capacity, n)] + chunks && Top(more[0]) == base + HEADER
  {
  }

  lemma GrownOk(chunks: seq<Chunk>, n: nat, limit: nat)
    requires chunks != [] && ChunksOk(chunks, limit) && n % 8 == 0 && chunks[0].size + n <= chunks[0].capacity
    ensures ChunksOk(Grown(chunks, n), limit)
  {
    var grown := Grown(chunks, n);
    Multiples(chunks[0].size, n);
    forall i | 0 <= i < |grown|
      ensures ChunkOk(grown[i], limit) && grown[i].base == chunks[i].base && End(grown[i]) == End(chunks[i])
    {
      assert ChunkOk(chunks[i], limit);
    }
  }

  lemma StillInChunk(p: nat, m: nat, chunks: seq<Chunk>, n: nat)
    requires chunks != [] && BlockOk(p, m, chunks)
    ensures BlockOk(p, m, Grown(chunks, n))
  {
    var i :| 0 <= i < |chunks| && InChunk(p, m, chunks[i]);
    assert InChunk(p, m, Grown(chunks, n)[i]);
  }

  /** A live block does not reach into the free part of the head chunk. */
  lemma BelowOrBeyond(p: nat, m: nat, chunks: seq<Chunk>, limit: nat)
    requires chunks != [] && ChunksOk(chunks, limit) && BlockOk(p, m, chunks)
    ensures p + m <= Top(chunks[0]) || End(chunks[0]) <= p
  {
    var i :| 0 <= i < |chunks| && InChunk(p, m, chunks[i]);
    assert ChunkOk(chunks[i], limit) && ChunkOk(chunks[0], limit);
    if i > 0 {
      assert Apart(chunks[0].base, End(chunks[0]), chunks[i].base, End(chunks[i]));
    }
  }

  /** Cutting a block off the head chunk. */
  lemma CutOff(blocks: map<nat, nat>, chunks: seq<Chunk>, n: nat, limit: nat)
    requires chunks != [] && ChunksOk(chunks, limit) && BlocksOk(blocks, chunks)
    requires n > 0 && n % 8 == 0 && chunks[0].size + n <= chunks[0].capacity
    ensures Top(chunks[0]) !in blocks && ChunksOk(Grown(chunks, n), limit)
    ensures BlocksOk(blocks[Top(chunks[0]) := n], Grown(chunks, n))
  {
    var p := Top(chunks[0]);
    GrownOk(chunks, n, limit);
    forall q | q in blocks
      ensures BlockOk(q, blocks[q], Grown(chunks, n)) && (q + blocks[q] <= p || p + n <= q)
    {
      assert BlockOk(q, blocks[q], chunks);
      StillInChunk(q, blocks[q], chunks, n);
      BelowOrBeyond(q, blocks[q], chunks, limit);
    }
    assert ChunkOk(chunks[0], limit);
    assert InChunk(p, n, Grown(chunks, n)[0]);
    Resized(blocks, chunks, Grown(chunks, n), p, n);
  }

  /** A block that ends where the head chunk's free part begins is in the head chunk. */
  lemma LastIsInHead(p: nat, m: nat, chunks: seq<Chunk>, limit: nat)
    requires chunks != [] && ChunksOk(chunks, limit) && BlockOk(p, m, chunks) && p + m == Top(chunks[0])
    ensures InChunk(p, m, chunks[0])
  {
    var i :| 0 <= i < |chunks| && InChunk(p, m, chunks[i]);
    assert ChunkOk(chunks[i], limit) && ChunkOk(chunks[0], limit);
    if i > 0 {
      assert Apart(chunks[0].base, End(chunks[0]), chunks[i].base, End(chunks[i]));
    }
  }

  /** Extending the last block in place. */
  lemma Extend(blocks: map<nat, nat>, chunks: seq<Chunk>, p: nat, increment: nat, limit: nat)
    requires chunks != [] && ChunksOk(chunks, limit) && BlocksOk(blocks, chunks)
    requires p in blocks && p + blocks[p] == Top(chunks[0])
    requires increment % 8 == 0 && chunks[0].size + increment <= chunks[0].capacity
    ensures ChunksOk(Grown(chunks, increment), limit)
    ensures BlocksOk(blocks[p := blocks[p] + increment], Grown(chunks, increment))
  {
    GrownOk(chunks, increment, limit);
    Longer(p, blocks[p], increment, chunks, limit);
    forall q | q in blocks && q != p
      ensures BlockOk(q, blocks[q], Grown(chunks, increment))
      ensures q + blocks[q] <= p || p + (blocks[p] + increment) <= q
    {
      OtherBlock(blocks, chunks, p, increment, q, limit);
    }
    Resized(blocks, chunks, Grown(chunks, increment), p, blocks[p] + increment);
  }

  lemma OtherBlock(blocks: map<nat, nat>, chunks: seq<Chunk>, p: nat, increment: nat, q: nat, limit: nat)
    requires chunks != [] && ChunksOk(chunks, limit) && BlocksOk(blocks, chunks)
    requires p in blocks && p + blocks[p] == Top(chunks[0]) && q in blocks && q != p
    requires chunks[0].size + increment <= chunks[0].capacity
    ensures BlockOk(q, blocks[q], Grown(chunks, increment))
    ensures q + blocks[q] <= p || p + blocks[p] + increment <= q
  {
    assert BlockOk(q, blocks[q], chunks);
    StillInChunk(q, blocks[q], chunks, increment);
    BelowOrBeyond(q, blocks[q], chunks, limit);
  }

  /** The head chunk with more handed out. */
  method GrownExtended(ghost blocks: map<nat, nat>, chunks: seq<Chunk>, ghost p: nat, increment: nat,
                       ghost longer: map<nat, nat>, limit: nat)
    returns (grown: seq<Chunk>)
    requires chunks != [] && ChunksOk(chunks, limit) && BlocksOk(blocks, chunks)
    requires p in blocks && p + blocks[p] == Top(chunks[0]) && longer == blocks[p := blocks[p] + increment]
    requires increment % 8 == 0 && chunks[0].size + increment <= chunks[0].capacity
    ensures ChunksOk(grown, limit) && BlocksOk(longer, grown)
    ensures grown == Grown(chunks, increment) && grown[|grown| - 1].base == chunks[|chunks| - 1].base
  {
    Extend(blocks, chunks, p, increment, limit);
    grown := Grown(chunks, increment);
  }

  lemma Longer(p: nat, m: nat, increment: nat, chunks: seq<Chunk>, limit: nat)
    requires chunks != [] && ChunksOk(chunks, limit) && BlockOk(p, m, chunks) && p + m == Top(chunks[0])
    requires increment % 8 == 0
    ensures BlockOk(p, m + increment, Grown(chunks, increment))
  {
    LastIsInHead(p, m, chunks, limit);
    Multiples(m, increment);
    assert InChunk(p, m + increment, Grown(chunks, increment)[0]);
  }

  /** One block gets another size that overlaps no other block. */
  lemma Resized(blocks: map<nat, nat>, chunks: seq<Chunk>, grown: seq<Chunk>, p: nat, n: nat)
    requires BlocksOk(blocks, chunks) && BlockOk(p, n, grown)
    requires forall q | q in blocks && q != p :: BlockOk(q, blocks[q], grown) && (q + blocks[q] <= p || p + n <= q)
    ensures BlocksOk(blocks[p := n], grown)
  {
    assert n > 0;
    assert forall q | q in blocks :: BlockOk(q, blocks[q], chunks) && blocks[q] > 0;
  }

  predicate RoomFor(chunks: seq<Chunk>, base: nat, capacity: nat, limit: nat) {
    && base > 0 && base % 8 == 0 && base + HEADER + capacity <= limit
    && forall i | 0 <= i < |chunks| :: Apart(base, base + HEADER + capacity, chunks[i].base, End(chunks[i]))
  }

  lemma NewChunk(blocks: map<nat, nat>, chunks: seq<Chunk>, base: nat, capacity: nat, limit: nat)
    requires ChunksOk(chunks, limit) && BlocksOk(blocks, chunks) && RoomFor(chunks, base, capacity, limit)
    ensures ChunksOk([Chunk(base, capacity, 0)] + chunks, limit)
    ensures BlocksOk(blocks, [Chunk(base, capacity, 0)] + chunks)
  {
    var c := Chunk(base, capacity, 0);
    forall p | p in blocks
      ensures BlockOk(p, blocks[p], [c] + chunks)
    {
      InMore(p, blocks[p], c, chunks);
    }
    MoreChunks(c, chunks, limit);
  }

  lemma InMore(p: nat, n: nat, c: Chunk, chunks: seq<Chunk>)
    requires BlockOk(p, n, chunks)
    ensures BlockOk(p, n, [c] + chunks)
  {
    var i :| 0 <= i < |chunks| && InChunk(p, n, chunks[i]);
    assert InChunk(p, n, ([c] + chunks)[i + 1]);
  }

  lemma MoreChunks(c: Chunk, chunks: seq<Chunk>, limit: nat)
    requires ChunksOk(chunks, limit) && ChunkOk(c, limit) && RoomFor(chunks, c.base, c.capacity, limit)
    ensures ChunksOk([c] + chunks, limit)
  {
    var more := [c] + chunks;
    forall i | 0 < i < |more|
      ensures more[i] == chunks[i - 1] && ChunkOk(more[i], limit)
    {
    }
  }

  lemma Smaller(blocks: map<nat, nat>, chunks: seq<Chunk>, p: nat, n: nat)
    requires BlocksOk(blocks, chunks) && p in blocks && 0 < n <= blocks[p] && n % 8 == 0
    ensures BlocksOk(blocks[p := n], chunks)
  {
    assert BlockOk(p, blocks[p], chunks);
    var i :| 0 <= i < |chunks| && InChunk(p, blocks[p], chunks[i]);
    assert InChunk(p, n, chunks[i]);
  }

  // ---------------------------------------------------------------- Totals

  function TotalCapacity(chunks: seq<Chunk>): (n: nat) {
    if chunks == [] then 0 else TotalCapacity(chunks[..|chunks| - 1]) + chunks[|chunks| - 1].capacity
  }

  function TotalSize(chunks: seq<Chunk>): (n: nat) {
    if chunks == [] then 0 else TotalSize(chunks[..|chunks| - 1]) + chunks[|chunks| - 1].size
  }

  /** Never is more handed out than there is. */
  lemma {:induction false} SizeWithinCapacity(chunks: seq<Chunk>, limit: nat)
    requires ChunksOk(chunks, limit)
    ensures TotalSize(chunks) <= TotalCapacity(chunks)
    decreases |chunks|
  {
    if chunks != [] {
      assert ChunkOk(chunks[|chunks| - 1], limit);
      SizeWithinCapacity(chunks[..|chunks| - 1], limit);
    }
  }

  // ---------------------------------------------------------------- The allocator

  /**
   The allocator over a memory. Address 0 is the null pointer. The chunk list is kept head first; the live blocks
   are what its clients hold.
   */
  class MemoryPoolAllocator {

    const memory: array<byte>
    const chunkCapacity: nat
    const userBuffer: nat
    var chunks: seq<Chunk>
    ghost var blocks: map<nat, nat>

    ghost predicate Valid()
      reads this
    {
      && ChunksOk(chunks, memory.Length) && BlocksOk(blocks, chunks)
      && (userBuffer != 0 ==> chunks != [] && chunks[|chunks| - 1].base == userBuffer)
    }

    constructor (memory: array<byte>, chunkCapacity: nat)
      ensures Valid() && chunks == [] && blocks == map[]
      ensures this.memory == memory && this.chunkCapacity == chunkCapacity && userBuffer == 0
    {
      this.memory, this.chunkCapacity, this.userBuffer := memory, chunkCapacity, 0;
      chunks := [];
      blocks := map[];
    }

    /** With a buffer of the user's, aligned and larger than a header, as the first chunk. */
    constructor WithBuffer(memory: array<byte>, buffer: nat, size: nat, chunkCapacity: nat)
      requires 0 < buffer && buffer % 8 == 0 && size > HEADER && buffer + size <= memory.Length
      ensures Valid() && chunks == [Chunk(buffer, size - HEADER, 0)] && blocks == map[]
      ensures this.memory == memory && this.chunkCapacity == chunkCapacity && userBuffer == buffer
    {
      this.memory, this.chunkCapacity, this.userBuffer := memory, chunkCapacity, buffer;
      chunks := [Chunk(buffer, size - HEADER, 0)];
      blocks := map[];
    }

    /** Frees all chunks but the user's buffer, and with them all blocks. */
    method Clear()
      requires Valid()
      modifies this`chunks, this`blocks
      ensures Valid() && blocks == map[] && TotalSize(chunks) == 0
      ensures userBuffer == 0 ==> chunks == []
      ensures userBuffer != 0 ==> old(chunks) != [] && chunks == [old(chunks)[|old(chunks)| - 1].(size := 0)]
    {
      blocks := map[];
      ghost var was := chunks;
      var k := 0;
      while chunks != [] && chunks[0].base != userBuffer
        invariant k <= |was| && chunks == was[k..]
        invariant userBuffer != 0 ==> k < |was|
        invariant blocks == map[]
        decreases |chunks|
      {
        chunks := chunks[1..];
        k := k + 1;
      }
      if chunks != [] {
        BasesDiffer(was, k, memory.Length);
        assert k == |was| - 1 && chunks == [was[k]];
        chunks := [chunks[0].(size := 0)];
        assert TotalSize(chunks[..0]) == 0;
      }
    }

    /** The bytes of all chunks. */
    method Capacity() returns (capacity: nat)
      ensures capacity == TotalCapacity(chunks)
    {
      capacity := 0;
      for i := 0 to |chunks|
        invariant capacity == TotalCapacity(chunks[..i])
      {
        assert chunks[..i + 1][..i] == chunks[..i];
        capacity := capacity + chunks[i].capacity;
      }
      assert chunks[..|chunks|] == chunks;
    }

    /** The bytes handed out. */
    method Size() returns (size: nat)
      ensures size == TotalSize(chunks)
    {
      size := 0;
      for i := 0 to |chunks|
        invariant size == TotalSize(chunks[..i])
      {
        assert chunks[..i + 1][..i] == chunks[..i];
        size := size + chunks[i].size;
      }
      assert chunks[..|chunks|] == chunks;
    }

    /** The capacity of the chunk that is added when the head has no room for `n` bytes. */
    function ChunkFor(n: nat): (capacity: nat) {
      if chunkCapacity > Align(n) then chunkCapacity else Align(n)
    }

    predicate Fits(n: nat)
      reads this
    {
      chunks != [] && chunks[0].size + Align(n) <= chunks[0].capacity
    }

    /**
     Hands out an aligned block that no live block overlaps. `base` is where the base allocator puts a new chunk if
     it is asked for one, 0 when it has none; only then, or when no byte is asked for, the result is null.
     */
    method Malloc(size: nat, base: nat) returns (p: nat)
      requires Valid() && size <= MAX_SIZE
      requires base != 0 ==> RoomFor(chunks, base, ChunkFor(size), memory.Length)
      modifies this`chunks, this`blocks
      ensures Valid()
      ensures p == 0 <==> size == 0 || (!old(Fits(size)) && base == 0)
      ensures p == 0 ==> chunks == old(chunks) && blocks == old(blocks)
      ensures p != 0 ==> p !in old(blocks) && blocks == old(blocks)[p := Align(size)]
      ensures p != 0 && old(Fits(size)) ==> p == Top(old(chunks)[0]) && chunks == Grown(old(chunks), Align(size))
      ensures p != 0 && !old(Fits(size)) ==>
        p == base + 24 && chunks == [Chunk(base, ChunkFor(size), Align(size))] + old(chunks)
    {
      if size == 0 {
        return 0;
      }
      var n := Align(size);
      if chunks == [] || chunks[0].size + n > chunks[0].capacity {
        var added := AddChunk(if chunkCapacity > n then chunkCapacity else n, base);
        if !added {
          return 0;
        }
        GrownNew(old(chunks), base, ChunkFor(size), n);
      }
      p := Bump(n);
    }

    method Bump(n: nat) returns (p: nat)
      requires Valid() && n > 0 && n % 8 == 0 && chunks != [] && chunks[0].size + n <= chunks[0].capacity
      modifies this`chunks, this`blocks
      ensures Valid() && p != 0 && p !in old(blocks) && blocks == old(blocks)[p := n]
      ensures p == Top(old(chunks)[0]) && chunks == Grown(old(chunks), n)
    {
      CutOff(blocks, chunks, n, memory.Length);
      p := Top(chunks[0]);
      blocks := blocks[p := n];
      chunks := Grown(chunks, n);
    }

    /**
     Gives a block another size. The client says the size it last asked for. The block stays where it is when it
     does not grow, or when it is the last one handed out and the head has room; otherwise its bytes move to a new
     block. Only bytes of the block that is returned change.
     */
    method Realloc(originalPtr: nat, originalSize: nat, newSize: nat, base: nat) returns (p: nat)
      requires Valid() && originalSize <= MAX_SIZE && newSize <= MAX_SIZE
      requires originalPtr != 0 ==> originalPtr in blocks && blocks[originalPtr] == Align(originalSize)
      requires base != 0 ==> RoomFor(chunks, base, ChunkFor(newSize), memory.Length)
      modifies this`chunks, this`blocks, memory
      ensures Valid()
      ensures p == 0 ==> (newSize == 0 || base == 0) && blocks == old(blocks) && memory[..] == old(memory[..])
      ensures p != 0 ==> blocks == (old(blocks) - {originalPtr})[p := Align(newSize)]
      ensures p != 0 && p != originalPtr ==> p !in old(blocks)
      ensures originalPtr != 0 && newSize != 0 ==>
        (p == originalPtr
         <==> Align(newSize) <= Align(originalSize)
              || old(Extendable(originalPtr, Align(originalSize), Align(newSize))))
      ensures p != 0 ==> p + Align(newSize) <= memory.Length
      ensures p != 0 ==> memory[..p] == old(memory[..p])
      ensures p != 0 ==> memory[p + Align(newSize)..] == old(memory[p + Align(newSize)..])
      ensures originalPtr != 0 ==> originalPtr + originalSize <= memory.Length
      ensures p != 0 && originalPtr != 0 ==>
        SamePrefix(memory[p..], old(memory[originalPtr..]), Least(originalSize, newSize))
      ensures p == 0 || (originalPtr != 0 && Align(newSize) <= Align(originalSize)) ==> chunks == old(chunks)
      ensures p == originalPtr != 0 && Align(newSize) > Align(originalSize) ==>
        chunks == Grown(old(chunks), Align(newSize) - Align(originalSize))
      ensures p != 0 && p != originalPtr && old(Fits(newSize)) ==>
        p == Top(old(chunks)[0]) && chunks == Grown(old(chunks), Align(newSize))
      ensures p != 0 && p != originalPtr && !old(Fits(newSize)) ==>
        p == base + 24 && chunks == [Chunk(base, ChunkFor(newSize), Align(newSize))] + old(chunks)
    {
      if originalPtr == 0 {
        NullIsNoBlock(blocks, chunks, memory.Length);
        p := Malloc(newSize, base);
        ReturnedBlock(blocks, chunks, p, memory.Length);
        return;
      }
      BlocksApart(blocks, chunks, originalPtr, memory.Length);
      if newSize == 0 {
        return 0;
      }
      p := ResizeLive(originalPtr, originalSize, newSize, base);
    }

    method ResizeLive(originalPtr: nat, originalSize: nat, newSize: nat, base: nat) returns (p: nat)
      requires Valid() && 0 < newSize <= MAX_SIZE
      requires originalPtr in blocks && blocks[originalPtr] == Align(originalSize)
      requires originalPtr != 0 && originalPtr + Align(originalSize) <= memory.Length
      requires base != 0 ==> RoomFor(chunks, base, ChunkFor(newSize), memory.Length)
      modifies this`chunks, this`blocks, memory
      ensures Valid()
      ensures p == 0 ==> base == 0 && blocks == old(blocks) && memory[..] == old(memory[..])
      ensures p != 0 ==> blocks == (old(blocks) - {originalPtr})[p := Align(newSize)]
      ensures p != 0 && p != originalPtr ==> p !in old(blocks)
      ensures p == originalPtr <==>
        Align(newSize) <= Align(originalSize) || old(Extendable(originalPtr, Align(originalSize), Align(newSize)))
      ensures p != 0 ==> p + Align(newSize) <= memory.Length && memory[..p] == old(memory[..p])
      ensures p != 0 ==> memory[p + Align(newSize)..] == old(memory[p + Align(newSize)..])
      ensures p != 0 ==> SamePrefix(memory[p..], old(memory[originalPtr..]), Least(originalSize, newSize))
      ensures p == 0 || Align(newSize) <= Align(originalSize) ==> chunks == old(chunks)
      ensures p == originalPtr && Align(newSize) > Align(originalSize) ==>
        chunks == Grown(old(chunks), Align(newSize) - Align(originalSize))
      ensures p != 0 && p != originalPtr && old(Fits(newSize)) ==>
        p == Top(old(chunks)[0]) && chunks == Grown(old(chunks), Align(newSize))
      ensures p != 0 && p != originalPtr && !old(Fits(newSize)) ==>
        p == base + 24 && chunks == [Chunk(base, ChunkFor(newSize), Align(newSize))] + old(chunks)
    {
      AlignWithin(originalSize, newSize);
      AlignExact(Align(newSize));
      p := Resize(originalPtr, Align(originalSize), Align(newSize), base);
      if p != 0 {
        ghost var least := Least(originalSize, newSize);
        PrefixAgrees(memory[p..], old(memory[originalPtr..]), Least(Align(originalSize), Align(newSize)), least);
      }
    }

    method Resize(originalPtr: nat, oldLength: nat, newLength: nat, base: nat) returns (p: nat)
      requires Valid() && 0 < newLength <= MAX_SIZE && newLength % 8 == 0
      requires originalPtr in blocks && blocks[originalPtr] == oldLength
      requires originalPtr != 0 && originalPtr + oldLength <= memory.Length
      requires base != 0 ==> RoomFor(chunks, base, ChunkFor(newLength), memory.Length)
      modifies this`chunks, this`blocks, memory
      ensures Valid()
      ensures p == 0 ==> base == 0 && blocks == old(blocks) && memory[..] == old(memory[..])
      ensures p != 0 ==> blocks == (old(blocks) - {originalPtr})[p := newLength]
      ensures p != 0 && p != originalPtr ==> p !in old(blocks)
      ensures p == originalPtr <==> newLength <= oldLength || old(Extendable(originalPtr, oldLength, newLength))
      ensures p != 0 ==> p + newLength <= memory.Length && memory[..p] == old(memory[..p])
      ensures p != 0 ==> memory[p + newLength..] == old(memory[p + newLength..])
      ensures p != 0 ==> SamePrefix(memory[p..], old(memory[originalPtr..]), Least(oldLength, newLength))
      ensures p == 0 || newLength <= oldLength ==> chunks == old(chunks)
      ensures p == originalPtr && newLength > oldLength ==> chunks == Grown(old(chunks), newLength - oldLength)
      ensures p != 0 && p != originalPtr && old(Fits(newLength)) ==>
        p == Top(old(chunks)[0]) && chunks == Grown(old(chunks), newLength)
      ensures p != 0 && p != originalPtr && !old(Fits(newLength)) ==>
        p == base + 24 && chunks == [Chunk(base, ChunkFor(newLength), newLength)] + old(chunks)
    {
      Replaced(blocks, originalPtr, newLength);
      if oldLength >= newLength {
        Smaller(blocks, chunks, originalPtr, newLength);
        blocks := blocks[originalPtr := newLength];
        return originalPtr;
      }
      var extended := ExtendInPlace(originalPtr, oldLength, newLength);
      if extended {
        ReturnedBlock(blocks, chunks, originalPtr, memory.Length);
        return originalPtr;
      }
      p := Move(originalPtr, oldLength, newLength, base);
    }

    /** Copies a block to a new and larger one. */
    method Move(originalPtr: nat, oldLength: nat, newLength: nat, base: nat) returns (p: nat)
      requires Valid() && 0 < newLength <= MAX_SIZE && newLength % 8 == 0
      requires originalPtr in blocks && blocks[originalPtr] == oldLength < newLength
      requires originalPtr != 0 && originalPtr + oldLength <= memory.Length
      requires base != 0 ==> RoomFor(chunks, base, ChunkFor(newLength), memory.Length)
      modifies this`chunks, this`blocks, memory
      ensures Valid()
      ensures p == 0 ==> base == 0 && blocks == old(blocks) && memory[..] == old(memory[..])
      ensures p != 0 ==> p !in old(blocks) && blocks == (old(blocks) - {originalPtr})[p := newLength]
      ensures p != 0 ==> p + newLength <= memory.Length && memory[..p] == old(memory[..p])
      ensures p != 0 ==> memory[p + newLength..] == old(memory[p + newLength..])
      ensures p != 0 ==> SamePrefix(memory[p..], old(memory[originalPtr..]), oldLength)
      ensures p == 0 ==> chunks == old(chunks)
      ensures p != 0 && old(Fits(newLength)) ==>
        p == Top(old(chunks)[0]) && chunks == Grown(old(chunks), newLength)
      ensures p != 0 && !old(Fits(newLength)) ==>
        p == base + 24 && chunks == [Chunk(base, ChunkFor(newLength), newLength)] + old(chunks)
    {
      AlignExact(newLength);
      p := Malloc(newLength, base);
      if p != 0 {
        Moved(old(blocks), originalPtr, p, newLength);
        MoveTo(p, newLength, originalPtr, oldLength);
      }
    }

    /** Copies a block's bytes to another live block, and lets it go. */
    method MoveTo(p: nat, place: nat, originalPtr: nat, n: nat)
      requires Valid() && p in blocks && originalPtr in blocks && p != originalPtr
      requires n == blocks[originalPtr] < blocks[p] == place
      modifies this`blocks, memory
      ensures Valid() && blocks == old(blocks) - {originalPtr}
      ensures p + place <= memory.Length && memory[..p] == old(memory[..p])
      ensures memory[p + place..] == old(memory[p + place..])
      ensures originalPtr + n <= memory.Length && SamePrefix(memory[p..], old(memory[originalPtr..]), n)
    {
      TwoBlocks(blocks, chunks, p, originalPtr);
      BlocksApart(blocks, chunks, p, memory.Length);
      BlocksApart(blocks, chunks, originalPtr, memory.Length);
      Without(blocks, chunks, originalPtr);
      CopyInto(memory, p, originalPtr, n, place);
      blocks := blocks - {originalPtr};
    }

    method GrowLast(p: nat, increment: nat)
      requires Valid() && p in blocks && increment % 8 == 0
      requires chunks != [] && p + blocks[p] == Top(chunks[0]) && chunks[0].size + increment <= chunks[0].capacity
      modifies this`chunks, this`blocks
      ensures Valid() && blocks == old(blocks)[p := old(blocks[p]) + increment]
      ensures chunks == Grown(old(chunks), increment)
    {
      ghost var longer := blocks[p := blocks[p] + increment];
      var grown := GrownExtended(blocks, chunks, p, increment, longer, memory.Length);
      chunks, blocks := grown, longer;
    }

    /** The block is the last one handed out, and the head has room for it to grow. */
    predicate Extendable(p: nat, oldLength: nat, newLength: nat)
      reads this
    {
      chunks != [] && p + oldLength == Top(chunks[0]) && chunks[0].size + newLength - oldLength <= chunks[0].capacity
    }

    /** Extends the block when it is the last one handed out and the head has room. */
    method ExtendInPlace(p: nat, oldLength: nat, newLength: nat) returns (extended: bool)
      requires Valid() && p in blocks && blocks[p] == oldLength < newLength && newLength % 8 == 0
      modifies this`chunks, this`blocks
      ensures Valid()
      ensures extended <==> old(Extendable(p, oldLength, newLength))
      ensures extended ==> blocks == old(blocks)[p := newLength] && chunks == Grown(old(chunks), newLength - oldLength)
      ensures !extended ==> chunks == old(chunks) && blocks == old(blocks)
    {
      assert BlockOk(p, blocks[p], chunks);
      if p == Top(chunks[0]) - oldLength {
        var increment := newLength - oldLength;
        Multiples(newLength, oldLength);
        if chunks[0].size + increment <= chunks[0].capacity {
          GrowLast(p, increment);
          return true;
        }
      }
      extended := false;
    }

    method AddChunk(capacity: nat, base: nat) returns (added: bool)
      requires Valid()
      requires base != 0 ==> RoomFor(chunks, base, capacity, memory.Length)
      modifies this`chunks
      ensures Valid() && (added <==> base != 0)
      ensures chunks == if added then [Chunk(base, capacity, 0)] + old(chunks) else old(chunks)
    {
      if base == 0 {
        return false;
      }
      NewChunk(blocks, chunks, base, capacity, memory.Length);
      chunks := [Chunk(base, capacity, 0)] + chunks;
      added := true;
    }
  }

  /** The sequences agree in their first `n` bytes. */
  predicate SamePrefix(a: bytes, b: bytes, n: nat) {
    n <= |a| && n <= |b| && a[..n] == b[..n]
  }

  lemma PrefixAgrees(a: bytes, b: bytes, n: nat, m: nat)
    requires SamePrefix(a, b, n) && m <= n
    ensures SamePrefix(a, b, m)
  {
    assert a[..m] == a[..n][..m] && b[..m] == b[..n][..m];
  }

  lemma Copied(was: bytes, now: bytes, to: nat, from: nat, n: nat)
    requires |was| == |now| && to + n <= |was| && from + n <= |was| && now[to..to + n] == was[from..from + n]
    ensures SamePrefix(now[to..], was[from..], n)
  {
    assert now[to..][..n] == now[to..to + n] && was[from..][..n] == was[from..from + n];
  }

  lemma TwoBlocks(blocks: map<nat, nat>, chunks: seq<Chunk>, p: nat, q: nat)
    requires BlocksOk(blocks, chunks) && p in blocks && q in blocks && p != q
    ensures p + blocks[p] <= q || q + blocks[q] <= p
  {
  }

  /** Two live blocks do not share a byte, and a live block lies in memory. */
  lemma BlocksApart(blocks: map<nat, nat>, chunks: seq<Chunk>, p: nat, limit: nat)
    requires ChunksOk(chunks, limit) && BlocksOk(blocks, chunks) && p in blocks
    ensures p % 8 == 0 && p > 0 && p + blocks[p] <= limit
    ensures forall q | q in blocks && q != p :: q + blocks[q] <= p || p + blocks[p] <= q
  {
    assert BlockOk(p, blocks[p], chunks);
    var i :| 0 <= i < |chunks| && InChunk(p, blocks[p], chunks[i]);
    assert ChunkOk(chunks[i], limit);
  }

  lemma ReturnedBlock(blocks: map<nat, nat>, chunks: seq<Chunk>, p: nat, limit: nat)
    requires ChunksOk(chunks, limit) && BlocksOk(blocks, chunks) && (p != 0 ==> p in blocks)
    ensures 0 !in blocks
    ensures p != 0 ==> p + blocks[p] <= limit
    ensures p != 0 ==> forall q | q in blocks && q != p :: q + blocks[q] <= p || p + blocks[p] <= q
  {
    forall q | q in blocks
      ensures q != 0
    {
      BlocksApart(blocks, chunks, q, limit);
    }
    if p != 0 {
      BlocksApart(blocks, chunks, p, limit);
    }
  }

  lemma Replaced(blocks: map<nat, nat>, p: nat, n: nat)
    ensures (blocks - {p})[p := n] == blocks[p := n]
  {
  }

  lemma Moved(blocks: map<nat, nat>, p: nat, q: nat, n: nat)
    requires p != q
    ensures blocks[q := n] - {p} == (blocks - {p})[q := n]
  {
  }

  lemma NullIsNoBlock(blocks: map<nat, nat>, chunks: seq<Chunk>, limit: nat)
    requires ChunksOk(chunks, limit) && BlocksOk(blocks, chunks)
    ensures 0 !in blocks && blocks - {0} == blocks
  {
    ReturnedBlock(blocks, chunks, 0, limit);
  }

  lemma Without(blocks: map<nat, nat>, chunks: seq<Chunk>, p: nat)
    requires BlocksOk(blocks, chunks)
    ensures BlocksOk(blocks - {p}, chunks)
  {
  }

  /** Copies bytes to a place that does not overlap theirs. */
  method Copy(memory: array<byte>, to: nat, from: nat, n: nat)
    requires to + n <= memory.Length && from + n <= memory.Length && (to + n <= from || from + n <= to)
    modifies memory
    ensures memory[to..to + n] == old(memory[from..from + n])
    ensures memory[..to] == old(memory[..to]) && memory[to + n..] == old(memory[to + n..])
  {
    for i := 0 to n
      invariant memory[to..to + i] == old(memory[from..from + i])
      invariant memory[..to] == old(memory[..to]) && memory[to + i..] == old(memory[to + i..])
      invariant memory[from..from + n] == old(memory[from..from + n])
    {
      assert memory[from + i] == memory[from..from + n][i];
      memory[to + i] := memory[from + i];
    }
  }

  /** The same with the part of a larger place that is left over unchanged as well. */
  method CopyInto(memory: array<byte>, to: nat, from: nat, n: nat, place: nat)
    requires n <= place && to + place <= memory.Length && from + n <= memory.Length
    requires to + n <= from || from + n <= to
    modifies memory
    ensures SamePrefix(memory[to..], old(memory[from..]), n)
    ensures memory[..to] == old(memory[..to]) && memory[to + place..] == old(memory[to + place..])
  {
    ghost var was := memory[..];
    Copy(memory, to, from, n);
    Copied(was, memory[..], to, from, n);
    assert memory[to + place..] == memory[to + n..][place - n..];
    assert was[to + place..] == was[to + n..][place - n..];
  }

  /** No two chunks are at the same address, and none is at the null address. */
  lemma BasesDiffer(chunks: seq<Chunk>, k: nat, limit: nat)
    requires ChunksOk(chunks, limit) && k < |chunks|
    ensures chunks[k].base != 0 && ChunkOk(chunks[k], limit)
    ensures forall j | k < j < |chunks| :: chunks[j].base != chunks[k].base
  {
    assert ChunkOk(chunks[k], limit);
    forall j | k < j < |chunks|
      ensures chunks[j].base != chunks[k].base
    {
      assert Apart(chunks[k].base, End(chunks[k]), chunks[j].base, End(chunks[j]));
    }
  }
}
