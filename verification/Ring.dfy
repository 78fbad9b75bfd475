/**
 The packet queue: a ring of a power-of-two size with free-running 32-bit indices. It is a bounded first-in
 first-out sequence through any number of index wrap-arounds.
 */
module Ring {

  const WORD := 0x1_0000_0000

  type index = x: int | 0 <= x < WORD

  datatype Point = Point(payload: int, offsetTime: nat)

  datatype Packet = Packet(baseTime: nat, points: seq<Point>)

  // ---------------------------------------------------------------- Powers of two and masks

  function Pow2(k: nat): (p: nat)
    ensures p > 0
  {
    if k == 0 then 1 else 2 * Pow2(k - 1)
  }

  /** Bitwise and. */
  function And(x: nat, y: nat): nat {
    if x == 0 || y == 0 then 0 else (if x % 2 == 1 && y % 2 == 1 then 1 else 0) + 2 * And(x / 2, y / 2)
  }

  /** Masking with a power of two less one takes the remainder. */
  lemma {:induction false} AndMask(x: nat, k: nat)
    ensures And(x, Pow2(k) - 1) == x % Pow2(k)
    decreases k
  {
    if k == 0 {
      assert Pow2(k) == 1;
    } else {
      AndMask(x / 2, k - 1);
      MaskStep(x, Pow2(k - 1));
      assert Pow2(k) == 2 * Pow2(k - 1);
    }
  }

  lemma MaskStep(x: nat, p: nat)
    requires p > 0 && And(x / 2, p - 1) == x / 2 % p
    ensures And(x, 2 * p - 1) == x % (2 * p)
  {
    HalfRemainder(x, p);
    AndOdd(x, p);
  }

  lemma AndOdd(x: nat, p: nat)
    requires p > 0
    ensures And(x, 2 * p - 1) == x % 2 + 2 * And(x / 2, p - 1)
  {
    var y := 2 * p - 1;
    assert y % 2 == 1 && y / 2 == p - 1;
    AndUnfolds(x, y);
  }

  lemma AndUnfolds(x: nat, y: nat)
    ensures And(x, y) == (if x % 2 == 1 && y % 2 == 1 then 1 else 0) + 2 * And(x / 2, y / 2)
  {
  }

  lemma HalfRemainder(x: nat, p: nat)
    requires p > 0
    ensures x % (2 * p) == x % 2 + 2 * (x / 2 % p)
  {
    var q := x / 2 / p;
    assert x / 2 == q * p + x / 2 % p;
    assert x == q * (2 * p) + (x % 2 + 2 * (x / 2 % p));
    RemainderIs(x, 2 * p, q, x % 2 + 2 * (x / 2 % p));
  }

  lemma Multiple(d: int, m: nat)
    requires m > 0
    ensures d >= 1 ==> d * m >= m
    ensures d <= -1 ==> d * m <= 0 - m
  {
  }

  lemma RemainderIs(x: int, m: nat, q: int, r: nat)
    requires m > 0 && x == q * m + r && r < m
    ensures x % m == r && x / m == q
  {
    var d := x / m - q;
    assert x == x / m * m + x % m;
    assert d * m == r - x % m;
    Multiple(d, m);
  }

  predicate IsPowerOf2(size: nat) {
    size != 0 && And(size, size - 1) == 0
  }

  /** The bit test finds exactly the powers of two. */
  lemma {:induction false} IsPowerOf2Meaning(size: nat)
    ensures IsPowerOf2(size) <==> exists k: nat :: size == Pow2(k)
    decreases size
  {
    if size == 1 {
      assert size == Pow2(0);
    } else if size > 1 {
      IsPowerOf2Meaning(size / 2);
      if size % 2 == 0 {
        assert (size - 1) / 2 == size / 2 - 1 && (size - 1) % 2 == 1;
        assert And(size, size - 1) == 2 * And(size / 2, size / 2 - 1);
        HalfPower(size);
      } else {
        assert (size - 1) / 2 == size / 2;
        AndSelf(size / 2);
        OddPower(size);
      }
    }
  }

  lemma HalfPower(size: nat)
    requires size > 1 && size % 2 == 0
    ensures (exists k: nat :: size == Pow2(k)) <==> (exists k: nat :: size / 2 == Pow2(k))
  {
    if k: nat :| size / 2 == Pow2(k) {
      assert size == Pow2(k + 1);
    }
    if k: nat :| size == Pow2(k) {
      assert k > 0;
      var j: nat := k - 1;
      assert size / 2 == Pow2(j);
    }
  }

  lemma OddPower(size: nat)
    requires size > 1 && size % 2 == 1
    ensures forall k: nat :: size != Pow2(k)
  {
    forall k: nat
      ensures size != Pow2(k)
    {
      assert k > 0 ==> Pow2(k) % 2 == 0;
    }
  }

  lemma {:induction false} AndSelf(x: nat)
    ensures And(x, x) == x
  {
    if x > 0 {
      AndSelf(x / 2);
    }
  }

  lemma {:induction false} Pow2Grows(a: nat, b: nat)
    requires a <= b
    ensures Pow2(a) <= Pow2(b)
    decreases b
  {
    if a < b {
      Pow2Grows(a, b - 1);
    }
  }

  lemma Pow2Of32()
    ensures Pow2(31) == 0x8000_0000 && Pow2(32) == WORD
  {
    assert Pow2(4) == 16;
    assert Pow2(8) == 256;
    assert Pow2(12) == 0x1000;
    assert Pow2(16) == 0x1_0000;
    assert Pow2(20) == 0x10_0000;
    assert Pow2(24) == 0x100_0000;
    assert Pow2(28) == 0x1000_0000;
  }

  /** The least power of two that is no smaller, but at most 2^31. */
  method RoundupPowerOf2(size: nat) returns (power: nat)
    requires size < WORD
    ensures exists k: nat :: k < 32 && power == Pow2(k)
    ensures size <= 0x8000_0000 ==> size <= power && forall k: nat :: size <= Pow2(k) ==> power <= Pow2(k)
    ensures size > 0x8000_0000 ==> power == 0x8000_0000
  {
    power := 0;
    var i := 0;
    Pow2Of32();
    while i < 32
      invariant i <= 32 && (i > 0 ==> power == Pow2(i - 1))
      invariant forall k: nat | k < i :: Pow2(k) < size
    {
      power := ShiftedOne(i);
      if size <= power {
        LeastPower(size, i);
        Pow2Grows(i, 31);
        return;
      }
      i := i + 1;
    }
  }

  lemma LeastPower(size: nat, i: nat)
    requires forall k: nat | k < i :: Pow2(k) < size
    ensures forall k: nat :: size <= Pow2(k) ==> Pow2(i) <= Pow2(k)
  {
    forall k: nat | size <= Pow2(k)
      ensures Pow2(i) <= Pow2(k)
    {
      Pow2Grows(i, k);
    }
  }

  /** `1 << i`. */
  method ShiftedOne(i: nat) returns (p: nat)
    ensures p == Pow2(i)
  {
    p := 1;
    for k := 0 to i
      invariant p == Pow2(k)
    {
      p := p * 2;
    }
  }

  // ---------------------------------------------------------------- The ring

  /** A size the queue can have: a power of two below 2^32. */
  ghost predicate IsSize(size: nat) {
    exists k: nat :: k < 32 && size == Pow2(k)
  }

  /** The queue's fields: its size, the two free-running indices and the slots. */
  datatype Ring = Ring(size: nat, rd: index, wr: index, slots: seq<Packet>)

  /** The difference of the indices, as 32-bit words subtract. */
  function Used(r: Ring): (n: nat) {
    (r.wr - r.rd) % WORD
  }

  function Next(i: index): (j: index) {
    (i + 1) % WORD
  }

  ghost predicate Good(r: Ring) {
    IsSize(r.size) && |r.slots| == r.size && Used(r) <= r.size
  }

  /** The `n` packets from index `x` on. */
  ghost function From(slots: seq<Packet>, x: nat, n: nat): (s: seq<Packet>)
    requires |slots| > 0
    ensures |s| == n
    decreases n
  {
    if n == 0 then [] else [slots[x % |slots|]] + From(slots, x + 1, n - 1)
  }

  /** The packets in the queue, oldest first. */
  ghost function Fifo(r: Ring): (s: seq<Packet>)
    requires r.size > 0 && |r.slots| == r.size
  {
    From(r.slots, r.rd, Used(r))
  }

  function WriteSlot(r: Ring, packet: Packet): (q: Ring)
    requires r.size > 0 && |r.slots| == r.size
  {
    r.(slots := r.slots[r.wr % r.size := packet])
  }

  function Publish(r: Ring): (q: Ring) {
    r.(wr := Next(r.wr))
  }

  function ReadSlot(r: Ring): (packet: Packet)
    requires r.size > 0 && |r.slots| == r.size
  {
    r.slots[r.rd % r.size]
  }

  function Release(r: Ring): (q: Ring) {
    r.(rd := Next(r.rd))
  }

  lemma {:induction false} Pow2Sum(a: nat, b: nat)
    ensures Pow2(a + b) == Pow2(a) * Pow2(b)
    decreases a
  {
    if a > 0 {
      Pow2Sum(a - 1, b);
      DoubleProduct(Pow2(a - 1), Pow2(b));
    }
  }

  lemma DoubleProduct(x: nat, y: nat)
    ensures 2 * (x * y) == 2 * x * y
  {
  }

  /** Every size divides 2^32, so the wrap of an index does not move its slot. */
  lemma WrapKeepsSlot(x: nat, size: nat)
    requires IsSize(size)
    ensures size > 0 && x % WORD % size == x % size
  {
    var k: nat :| k < 32 && size == Pow2(k);
    Pow2Sum(32 - k, k);
    Pow2Of32();
    RemainderOfRemainder(x, size, Pow2(32 - k));
  }

  lemma RemainderOfRemainder(x: nat, m: nat, c: nat)
    requires m > 0 && c > 0 && c * m > 0
    ensures x % (c * m) % m == x % m
  {
    var q, y := x / (c * m), x % (c * m);
    assert x == q * (c * m) + y;
    assert y == y / m * m + y % m;
    Regroup(q, c, m);
    Collect(q * c, y / m, m);
    RemainderIs(x, m, q * c + y / m, y % m);
  }

  lemma Regroup(q: nat, c: nat, m: nat)
    ensures q * (c * m) == q * c * m
  {
  }

  lemma Collect(a: nat, b: nat, m: nat)
    ensures a * m + b * m == (a + b) * m
  {
  }

  /** Fewer than `size` apart, two indices have different slots. */
  lemma SlotsDiffer(a: nat, b: nat, size: nat)
    requires size > 0 && a < b < a + size
    ensures a % size != b % size
  {
    var d := b / size - a / size;
    assert a == a / size * size + a % size;
    assert b == b / size * size + b % size;
    Distribute(b / size, a / size, size);
    Multiple(d, size);
  }

  lemma Distribute(a: int, b: int, m: nat)
    ensures a * m - b * m == (a - b) * m
  {
  }

  /** The write index is the read index and the number in use. */
  lemma WriteIndex(r: Ring)
    requires Good(r)
    ensures r.wr % r.size == (r.rd + Used(r)) % r.size
  {
    WrapKeepsSlot(r.rd + Used(r), r.size);
    assert (r.rd + Used(r)) % WORD == r.wr;
  }

  lemma SuccessorRemainder(x: nat, m: nat)
    requires m > 0
    ensures (x + 1) % m == if x % m + 1 < m then x % m + 1 else 0
  {
    var q := x / m;
    assert x == q * m + x % m;
    if x % m + 1 < m {
      RemainderIs(x + 1, m, q, x % m + 1);
    } else {
      Collect(q, 1, m);
      RemainderIs(x + 1, m, q + 1, 0);
    }
  }

  lemma {:induction false} FromCongruent(slots: seq<Packet>, x: nat, y: nat, n: nat)
    requires |slots| > 0 && x % |slots| == y % |slots|
    ensures From(slots, x, n) == From(slots, y, n)
    decreases n
  {
    if n > 0 {
      SuccessorRemainder(x, |slots|);
      SuccessorRemainder(y, |slots|);
      FromCongruent(slots, x + 1, y + 1, n - 1);
    }
  }

  lemma {:induction false} FromExtends(slots: seq<Packet>, x: nat, n: nat)
    requires |slots| > 0
    ensures From(slots, x, n + 1) == From(slots, x, n) + [slots[(x + n) % |slots|]]
    decreases n
  {
    if n > 0 {
      FromExtends(slots, x + 1, n - 1);
      FromUnfolds(slots, x, n);
      FromUnfolds(slots, x, n + 1);
      assert x + 1 + (n - 1) == x + n;
    }
  }

  lemma FromUnfolds(slots: seq<Packet>, x: nat, n: nat)
    requires |slots| > 0 && n > 0
    ensures From(slots, x, n) == [slots[x % |slots|]] + From(slots, x + 1, n - 1)
  {
  }

  /** The slot after the last of fewer than `size` packets is none of theirs. */
  lemma {:induction false} FromElsewhere(slots: seq<Packet>, x: nat, n: nat, i: nat, packet: Packet)
    requires n < |slots| && i == (x + n) % |slots|
    ensures i < |slots| && From(slots[i := packet], x, n) == From(slots, x, n)
    decreases n
  {
    if n > 0 {
      SlotsDiffer(x, x + n, |slots|);
      FromElsewhere(slots, x + 1, n - 1, i, packet);
    }
  }

  /** Writing the free slot changes nothing a reader may see. */
  lemma WritingIsUnseen(r: Ring, packet: Packet)
    requires Good(r) && Used(r) < r.size
    ensures Good(WriteSlot(r, packet)) && Fifo(WriteSlot(r, packet)) == Fifo(r)
    ensures Used(r) > 0 ==> ReadSlot(WriteSlot(r, packet)) == ReadSlot(r)
  {
    WriteIndex(r);
    FromElsewhere(r.slots, r.rd, Used(r), r.wr % r.size, packet);
    if Used(r) > 0 {
      HeadIsElsewhere(r, Used(r));
    }
  }

  lemma HeadIsElsewhere(r: Ring, used: nat)
    requires r.size > 0 && 0 < used < r.size && r.wr % r.size == (r.rd + used) % r.size
    ensures r.wr % r.size != r.rd % r.size
  {
    SlotsDiffer(r.rd, r.rd + used, r.size);
  }

  /** Publishing the write index appends the packet in the slot. */
  lemma PublishingAppends(r: Ring)
    requires Good(r) && Used(r) < r.size
    ensures Good(Publish(r)) && Used(Publish(r)) == Used(r) + 1
    ensures Fifo(Publish(r)) == Fifo(r) + [r.slots[r.wr % r.size]]
  {
    WriteIndex(r);
    SizeBelowWord(r.size);
    UsedAfterPublish(r);
    FromExtends(r.slots, r.rd, Used(r));
  }

  lemma SizeBelowWord(size: nat)
    requires IsSize(size)
    ensures 0 < size <= 0x8000_0000
  {
    var k: nat :| k < 32 && size == Pow2(k);
    Pow2Grows(k, 31);
    Pow2Of32();
  }

  lemma UsedAfterPublish(r: Ring)
    requires Used(r) < 0x8000_0000
    ensures Used(Publish(r)) == Used(r) + 1
  {
  }

  lemma UsedAfterRelease(r: Ring)
    requires Used(r) > 0
    ensures Used(Release(r)) == Used(r) - 1
  {
  }

  /** Reading takes the oldest packet, and releasing it leaves the others. */
  lemma ReleasingDropsOldest(r: Ring)
    requires Good(r) && Used(r) > 0
    ensures Good(Release(r)) && Used(Release(r)) == Used(r) - 1
    ensures Fifo(r) == [ReadSlot(r)] + Fifo(Release(r))
  {
    UsedAfterRelease(r);
    WrapKeepsSlot(r.rd + 1, r.size);
    FromCongruent(r.slots, r.rd + 1, Next(r.rd), Used(r) - 1);
  }
}
