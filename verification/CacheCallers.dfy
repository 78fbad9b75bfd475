/** Which overlapping calls of the index cache do harm: conditions that callers can keep, and runs that break them. */
module CacheCallers {
  import opened Bytes
  import opened CacheIndex
  import opened CacheRuns

  // ---------------------------------------------------------------- Calls of GetFreeIndex

  /** No call looks up an unmapped lidar while another call is about to take a slot for it. */
  ghost predicate LookUpsApart(sections: seq<Section>) {
    forall n: nat | n < |sections| && sections[n].LookUp? ::
      Key(sections[n].handle) in EnterAll(sections[..n]).indices
      || Key(sections[n].handle) !in EnterAll(sections[..n]).pending
  }

  ghost predicate PendingOnce(s: Shared) {
    forall k | k in s.pending :: s.pending[k] == 1 && k !in s.indices
  }

  lemma {:induction false} PendingOnceTo(sections: seq<Section>, n: nat)
    requires n <= |sections| && LookUpsApart(sections) && NoneReadsLate(sections)
    ensures PendingOnce(EnterAll(sections[..n]))
    decreases n
  {
    if n == 0 {
      assert sections[..0] == [];
    } else {
      PendingOnceTo(sections, n - 1);
      LastSection(sections, n - 1);
      PendingOnceStep(EnterAll(sections[..n - 1]), sections[n - 1]);
    }
  }

  lemma PendingOnceStep(s: Shared, section: Section)
    requires |s.used| == MAX_SOURCE_LIDAR && PendingOnce(s) && !ReadsLate(s, section)
    requires section.LookUp? ==> Key(section.handle) in s.indices || Key(section.handle) !in s.pending
    ensures PendingOnce(Enter(s, section))
  {
    var key := Key(section.handle);
    if section.LookUp? && key !in s.indices {
      assert forall k | k in s.pending + multiset{key} :: k == key || k in s.pending;
    } else if section.Take? && key in s.pending {
      TakenOnce(s, key);
    }
  }

  lemma TakenOnce(s: Shared, key: bytes)
    requires PendingOnce(s) && key in s.pending
    ensures key !in s.pending - multiset{key}
    ensures forall k | k in s.pending - multiset{key} ::
      k != key && (s.pending - multiset{key})[k] == 1 && k !in s.indices
  {
    assert s.pending[key] == 1;
    forall k | k in s.pending - multiset{key}
      ensures k != key && k in s.pending && (s.pending - multiset{key})[k] == s.pending[k]
    {
    }
  }

  /** Calls of GetFreeIndex for one new lidar that do not overlap leave no slot behind. */
  lemma LookUpsApartLeakNothing(sections: seq<Section>)
    requires Whole(sections) && LookUpsApart(sections)
    ensures NoLeak(EnterAll(sections).indices, EnterAll(sections).used)
  {
    forall n: nat | n < |sections|
      ensures !Overtakes(EnterAll(sections[..n]), sections[n])
    {
      PendingOnceTo(sections, n);
    }
    LeakExactly(sections);
  }

  // ---------------------------------------------------------------- Runs without resets

  /** Nobody is reset. */
  predicate NoResets(sections: seq<Section>) {
    forall section | section in sections :: section.LookUp? || section.Take? || section.Probe? || section.Read?
  }

  ghost predicate FoundIsMapped(s: Shared) {
    forall k | k in s.found :: k in s.indices
  }

  lemma {:induction false} FoundIsMappedTo(sections: seq<Section>, n: nat)
    requires n <= |sections| && NoResets(sections)
    ensures FoundIsMapped(EnterAll(sections[..n]))
    decreases n
  {
    if n == 0 {
      assert sections[..0] == [];
    } else {
      FoundIsMappedTo(sections, n - 1);
      LastSection(sections, n - 1);
      assert sections[n - 1] in sections;
      FoundIsMappedStep(EnterAll(sections[..n - 1]), sections[n - 1]);
    }
  }

  lemma FoundIsMappedStep(s: Shared, section: Section)
    requires |s.used| == MAX_SOURCE_LIDAR && FoundIsMapped(s)
    requires section.LookUp? || section.Take? || section.Probe? || section.Read?
    ensures FoundIsMapped(Enter(s, section))
  {
    var t := Enter(s, section);
    forall k | k in t.found
      ensures k in s.found || k in s.indices
    {
    }
  }

  /** Without resets, calls of GetFreeIndex and GetIndex may overlap in any way: no two lidars share a slot. */
  lemma NoResetsInjective(sections: seq<Section>)
    requires NoResets(sections)
    ensures AlwaysSound(sections) && NoneReadsLate(sections)
  {
    forall n: nat | n < |sections|
      ensures !ReadsLate(EnterAll(sections[..n]), sections[n])
    {
      FoundIsMappedTo(sections, n);
      assert sections[n] in sections;
    }
    WholeInjective(sections);
  }

  // ---------------------------------------------------------------- Calls that do not overlap

  /** A call of ResetIndex is about to erase the lidar. */
  ghost predicate Erasing(resets: multiset<(bytes, nat)>, key: bytes) {
    exists i :: (key, i) in resets
  }

  /** A call of ResetIndex has found the lidar and has not erased it yet. */
  ghost predicate Resetting(s: Shared, key: bytes) {
    key in s.probes || Erasing(s.resets, key)
  }

  /** No call of ResetIndex begins while a call of GetIndex or ResetIndex for the lidar is on, nor the other way. */
  ghost predicate CallsApart(sections: seq<Section>) {
    forall n: nat | n < |sections| :: Apart(EnterAll(sections[..n]), sections[n])
  }

  ghost predicate Apart(s: Shared, section: Section) {
    var key := Key(section.handle);
    && (section.Probe? || section.ResetProbe? || section.Reset? ==> !Resetting(s, key))
    && (section.ResetProbe? || section.Reset? ==> key !in s.found)
  }

  /** A slot about to be erased is in use, by nobody else, and is about to be erased once. */
  ghost predicate ResetsOwn(s: Shared) {
    && Sound(s)
    && (forall pair | pair in s.resets ::
          s.resets[pair] == 1 && pair.1 < |s.used| && s.used[pair.1]
          && forall k | k in s.indices && s.indices[k] == pair.1 :: k == pair.0)
    && forall p, q | p in s.resets && q in s.resets && p != q :: p.0 != q.0 && p.1 != q.1
  }

  /** A lidar that has been found is mapped, and no reset is about to erase it. */
  ghost predicate StillThere(s: Shared) {
    && (forall k | k in s.found || k in s.probes :: k in s.indices && !Erasing(s.resets, k))
    && forall k | k in s.probes :: s.probes[k] == 1 && k !in s.found
  }

  lemma ApartStep(s: Shared, section: Section)
    requires |s.used| == MAX_SOURCE_LIDAR && ResetsOwn(s) && StillThere(s) && Apart(s, section)
    ensures ResetsOwn(Enter(s, section)) && !Steals(s, section) && !ReadsLate(s, section)
  {
    var key := Key(section.handle);
    if section.Erase? && (key, section.index) in s.resets {
      EraseOwn(s, key, section.index);
    } else if section.ResetRead? && key in s.probes {
      ReadOwn(s, key);
    } else if section.Reset? && key in s.indices {
      ResetOwn(s, key);
    } else if section.Take? && FirstFree(s.used) < |s.used| {
      TakeOwn(s, key, FirstFree(s.used), s.pending - multiset{key});
    }
  }

  lemma TakeOwn(s: Shared, key: bytes, f: nat, pending: multiset<bytes>)
    requires ResetsOwn(s) && f < |s.used| && !s.used[f]
    ensures ResetsOwn(s.(indices := s.indices[key := f], used := s.used[f := true], pending := pending))
  {
    Taken(s.indices, s.used, key, f);
  }

  lemma EraseOwn(s: Shared, key: bytes, index: nat)
    requires ResetsOwn(s) && (key, index) in s.resets
    ensures ResetsOwn(Erased(s.(resets := s.resets - multiset{(key, index)}), key, index))
    ensures forall k | k in s.indices && s.indices[k] == index :: k == key
  {
    var pair := (key, index);
    var left := s.resets - multiset{pair};
    forall p | p in left
      ensures p in s.resets && p != pair && left[p] == 1 && p.1 != index
    {
      assert s.resets[pair] == 1;
    }
    assert pair.1 < |s.used|;
    EraseSound(s.indices, s.used, key, index);
  }

  lemma ReadOwn(s: Shared, key: bytes)
    requires ResetsOwn(s) && key in s.indices && !Erasing(s.resets, key)
    ensures ResetsOwn(s.(resets := s.resets + multiset{(key, s.indices[key])}, probes := s.probes - multiset{key}))
  {
    var pair := (key, s.indices[key]);
    assert pair !in s.resets;
    forall p | p in s.resets
      ensures p.0 != key && p.1 != s.indices[key]
    {
      assert (p.0, p.1) in s.resets;
    }
  }

  lemma ResetOwn(s: Shared, key: bytes)
    requires ResetsOwn(s) && key in s.indices && !Erasing(s.resets, key)
    ensures ResetsOwn(Erased(s, key, s.indices[key]))
  {
    Given(s.indices, s.used, key);
    forall p | p in s.resets
      ensures p.0 != key && p.1 != s.indices[key]
    {
      assert (p.0, p.1) in s.resets;
    }
  }

  lemma StillThereStep(s: Shared, section: Section)
    requires |s.used| == MAX_SOURCE_LIDAR && ResetsOwn(s) && StillThere(s) && Apart(s, section)
    ensures StillThere(Enter(s, section))
  {
    match section
    case LookUp(_) =>
    case Take(_) => TakeThere(s, section);
    case Probe(_) => ProbeThere(s, section);
    case Read(_) => ReadThere(s, section);
    case ResetProbe(_) => ProbeThere(s, section);
    case ResetRead(_) => ResetReadThere(s, section);
    case Erase(_, _) => EraseThere(s, section);
    case Reset(_) => ResetThere(s, section);
  }

  lemma TakeThere(s: Shared, section: Section)
    requires |s.used| == MAX_SOURCE_LIDAR && StillThere(s) && section.Take?
    ensures StillThere(Enter(s, section))
  {
  }

  lemma ProbeThere(s: Shared, section: Section)
    requires |s.used| == MAX_SOURCE_LIDAR && StillThere(s) && Apart(s, section)
    requires section.Probe? || section.ResetProbe?
    ensures StillThere(Enter(s, section))
  {
    var key := Key(section.handle);
    assert forall k | k in s.found + multiset{key} :: k == key || k in s.found;
    assert forall k | k in s.probes + multiset{key} :: k == key || k in s.probes;
  }

  lemma ReadThere(s: Shared, section: Section)
    requires |s.used| == MAX_SOURCE_LIDAR && StillThere(s) && section.Read?
    ensures StillThere(Enter(s, section))
  {
    assert forall k | k in s.found - multiset{Key(section.handle)} :: k in s.found;
  }

  lemma ResetReadThere(s: Shared, section: Section)
    requires |s.used| == MAX_SOURCE_LIDAR && StillThere(s) && section.ResetRead?
    ensures StillThere(Enter(s, section))
  {
    var key, t := Key(section.handle), Enter(s, section);
    if key in s.probes {
      assert s.probes[key] == 1;
      forall k | k in t.found || k in t.probes
        ensures k != key && k in t.indices && !Erasing(t.resets, k)
      {
      }
    }
  }

  lemma EraseThere(s: Shared, section: Section)
    requires |s.used| == MAX_SOURCE_LIDAR && StillThere(s) && section.Erase?
    ensures StillThere(Enter(s, section))
  {
    if (Key(section.handle), section.index) in s.resets {
      ErasedThere(s, Key(section.handle), section.index);
    }
  }

  lemma ErasedThere(s: Shared, key: bytes, index: nat)
    requires StillThere(s) && (key, index) in s.resets
    ensures StillThere(Erased(s.(resets := s.resets - multiset{(key, index)}), key, index))
  {
    assert Erasing(s.resets, key);
    forall k | Erasing(s.resets - multiset{(key, index)}, k)
      ensures Erasing(s.resets, k)
    {
      var i :| (k, i) in s.resets - multiset{(key, index)};
      assert (k, i) in s.resets;
    }
  }

  lemma ResetThere(s: Shared, section: Section)
    requires |s.used| == MAX_SOURCE_LIDAR && StillThere(s) && Apart(s, section) && section.Reset?
    ensures StillThere(Enter(s, section))
  {
  }

  lemma {:induction false} ApartTo(sections: seq<Section>, n: nat)
    requires n <= |sections| && CallsApart(sections)
    ensures ResetsOwn(EnterAll(sections[..n])) && StillThere(EnterAll(sections[..n]))
    decreases n
  {
    if n == 0 {
      assert sections[..0] == [];
    } else {
      ApartTo(sections, n - 1);
      LastSection(sections, n - 1);
      ApartStep(EnterAll(sections[..n - 1]), sections[n - 1]);
      StillThereStep(EnterAll(sections[..n - 1]), sections[n - 1]);
    }
  }

  /** While no call of ResetIndex overlaps another call for its lidar, no two lidars ever share a slot. */
  lemma CallsApartInjective(sections: seq<Section>)
    requires CallsApart(sections)
    ensures AlwaysSound(sections)
  {
    forall n: nat | n < |sections|
      ensures !Steals(EnterAll(sections[..n]), sections[n]) && !Revives(EnterAll(sections[..n]), sections[n])
    {
      ApartTo(sections, n);
      ApartStep(EnterAll(sections[..n]), sections[n]);
    }
    InjectiveThroughout(sections);
  }

  // ---------------------------------------------------------------- Four runs

  /** The state before the `n`-th section. */
  ghost function At(sections: seq<Section>, n: nat): (s: Shared)
    requires n <= |sections|
    ensures |s.used| == MAX_SOURCE_LIDAR
  {
    EnterAll(sections[..n])
  }

  predicate Untouched(s: Shared) {
    && s.indices == map[] && s.pending == multiset{} && s.resets == multiset{}
    && |s.used| == MAX_SOURCE_LIDAR && forall k | 0 <= k < MAX_SOURCE_LIDAR :: !s.used[k]
  }

  lemma Begins(sections: seq<Section>)
    ensures At(sections, 0) == Start()
  {
    assert sections[..0] == [];
  }

  lemma LookedUp(sections: seq<Section>, n: nat, key: bytes)
    requires n < |sections| && sections[n].LookUp? && key == Key(sections[n].handle) && key !in At(sections, n).indices
    ensures At(sections, n + 1) == At(sections, n).(pending := At(sections, n).pending + multiset{key})
  {
    LastSection(sections, n);
  }

  lemma SlotTaken(sections: seq<Section>, n: nat, key: bytes, f: nat)
    requires n < |sections| && sections[n].Take? && key == Key(sections[n].handle) && key in At(sections, n).pending
    requires f < MAX_SOURCE_LIDAR && !At(sections, n).used[f] && forall k | 0 <= k < f :: At(sections, n).used[k]
    ensures
      var s := At(sections, n);
      At(sections, n + 1) == s.(
        indices := s.indices[key := f], used := s.used[f := true], pending := s.pending - multiset{key})
  {
    LastSection(sections, n);
    assert FirstFree(At(sections, n).used) == f;
  }

  lemma Probed(sections: seq<Section>, n: nat, key: bytes)
    requires n < |sections| && key == Key(sections[n].handle) && key in At(sections, n).indices
    ensures sections[n].Probe? ==>
      At(sections, n + 1) == At(sections, n).(found := At(sections, n).found + multiset{key})
    ensures sections[n].ResetProbe? ==>
      At(sections, n + 1) == At(sections, n).(probes := At(sections, n).probes + multiset{key})
  {
    LastSection(sections, n);
  }

  /** A call of ResetIndex reads the slot it is going to free; slot 0, when its lidar has been unmapped. */
  lemma SlotRead(sections: seq<Section>, n: nat, key: bytes)
    requires n < |sections| && sections[n].ResetRead? && key == Key(sections[n].handle) && key in At(sections, n).probes
    ensures
      var s := At(sections, n);
      var indices := if key in s.indices then s.indices else s.indices[key := 0];
      At(sections, n + 1) == s.(
        indices := indices, probes := s.probes - multiset{key}, resets := s.resets + multiset{(key, indices[key])})
  {
    LastSection(sections, n);
  }

  lemma WasErased(sections: seq<Section>, n: nat, key: bytes, i: nat)
    requires n < |sections| && key == Key(sections[n].handle) && i < MAX_SOURCE_LIDAR
    requires sections[n].Erase? && sections[n].index == i && (key, i) in At(sections, n).resets
    ensures
      var s := At(sections, n);
      At(sections, n + 1) == s.(
        indices := s.indices - {key}, used := s.used[i := false], resets := s.resets - multiset{(key, i)})
  {
    LastSection(sections, n);
  }

  lemma WasReset(sections: seq<Section>, n: nat, key: bytes, i: nat)
    requires n < |sections| && sections[n].Reset? && key == Key(sections[n].handle) && i < MAX_SOURCE_LIDAR
    requires key in At(sections, n).indices && At(sections, n).indices[key] == i
    ensures
      var s := At(sections, n);
      At(sections, n + 1) == s.(indices := s.indices - {key}, used := s.used[i := false])
  {
    LastSection(sections, n);
  }

  /** Two interleaved calls for one new lidar take two slots, and the first of them is never given back. */
  lemma InterleavedLeak(handle: nat)
    ensures
      var s := EnterAll([LookUp(handle), LookUp(handle), Take(handle), Take(handle), Reset(handle)]);
      s.indices == map[] && s.used[0] && !NoLeak(s.indices, s.used)
  {
    var sections := [LookUp(handle), LookUp(handle), Take(handle), Take(handle), Reset(handle)];
    Begins(sections);
    Leaks(sections, 0, Key(handle));
    assert sections[..5] == sections;
  }

  lemma Leaks(sections: seq<Section>, n: nat, key: bytes)
    requires n + 5 <= |sections| && Untouched(At(sections, n))
    requires forall k | n <= k < n + 5 :: Key(sections[k].handle) == key
    requires sections[n].LookUp? && sections[n + 1].LookUp? && sections[n + 2].Take? && sections[n + 3].Take?
    requires sections[n + 4].Reset?
    ensures At(sections, n + 5).indices == map[] && At(sections, n + 5).used[0]
    ensures !NoLeak(At(sections, n + 5).indices, At(sections, n + 5).used)
  {
    LookedUpTwice(sections, n, key);
    TakenTwice(sections, n + 2, key);
    WasReset(sections, n + 4, key, 1);
    assert !Owned(At(sections, n + 5).indices, 0);
  }

  lemma LookedUpTwice(sections: seq<Section>, n: nat, key: bytes)
    requires n + 2 <= |sections| && Untouched(At(sections, n)) && sections[n].LookUp? && sections[n + 1].LookUp?
    requires Key(sections[n].handle) == Key(sections[n + 1].handle) == key
    ensures At(sections, n + 2).indices == map[] && At(sections, n + 2).pending[key] == 2
    ensures !At(sections, n + 2).used[0] && !At(sections, n + 2).used[1]
  {
    LookedUp(sections, n, key);
    LookedUp(sections, n + 1, key);
  }

  lemma TakenTwice(sections: seq<Section>, n: nat, key: bytes)
    requires n + 2 <= |sections| && sections[n].Take? && sections[n + 1].Take?
    requires Key(sections[n].handle) == Key(sections[n + 1].handle) == key
    requires At(sections, n).indices == map[] && At(sections, n).pending[key] == 2
    requires !At(sections, n).used[0] && !At(sections, n).used[1]
    ensures At(sections, n + 2).indices == map[key := 1] && At(sections, n + 2).used[0]
  {
    FirstTaken(sections, n, key);
    SlotTaken(sections, n + 1, key, 1);
  }

  lemma FirstTaken(sections: seq<Section>, n: nat, key: bytes)
    requires n < |sections| && sections[n].Take? && Key(sections[n].handle) == key
    requires At(sections, n).indices == map[] && At(sections, n).pending[key] == 2 && !At(sections, n).used[0]
    ensures At(sections, n + 1).indices == map[key := 0] && key in At(sections, n + 1).pending
    ensures At(sections, n + 1).used == At(sections, n).used[0 := true]
  {
    SlotTaken(sections, n, key, 0);
  }

  /** A new lidar's uninterrupted call takes the first free slot. */
  lemma NewLidar(sections: seq<Section>, n: nat, key: bytes, f: nat)
    requires n + 1 < |sections| && sections[n].LookUp? && sections[n + 1].Take?
    requires key == Key(sections[n].handle) == Key(sections[n + 1].handle) && key !in At(sections, n).indices
    requires f < MAX_SOURCE_LIDAR && !At(sections, n).used[f] && forall k | 0 <= k < f :: At(sections, n).used[k]
    ensures
      var s := At(sections, n);
      At(sections, n + 2) == s.(indices := s.indices[key := f], used := s.used[f := true])
  {
    var pending := At(sections, n).pending;
    LookedUp(sections, n, key);
    SlotTaken(sections, n + 1, key, f);
    assert pending + multiset{key} - multiset{key} == pending;
  }

  /**
   Two overlapping resets of lidar `a`: the second to erase frees the slot that `b` has got in the meantime, and `c`
   gets it as well.
   */
  lemma StolenSlot(a: nat, b: nat, c: nat)
    requires a != b && a != c && b != c
    ensures
      var s := EnterAll([LookUp(a), Take(a), ResetProbe(a), ResetRead(a), Reset(a), LookUp(b), Take(b), Erase(a, 0),
                         LookUp(c), Take(c)]);
      Key(b) in s.indices && Key(c) in s.indices && s.indices[Key(b)] == s.indices[Key(c)] == 0
  {
    var sections := [LookUp(a), Take(a), ResetProbe(a), ResetRead(a), Reset(a), LookUp(b), Take(b), Erase(a, 0),
                     LookUp(c), Take(c)];
    KeysDiffer(a, b);
    KeysDiffer(a, c);
    KeysDiffer(b, c);
    Begins(sections);
    ReadAndReset(sections, 0, Key(a));
    Stolen(sections, 5, Key(a), Key(b), Key(c));
    assert sections[..10] == sections;
  }

  /** After one reset of a lidar is complete the other is about to erase slot 0. */
  lemma ReadAndReset(sections: seq<Section>, n: nat, key: bytes)
    requires n + 5 <= |sections| && Untouched(At(sections, n)) && sections[n].LookUp? && sections[n + 1].Take?
    requires sections[n + 2].ResetProbe? && sections[n + 3].ResetRead? && sections[n + 4].Reset?
    requires forall k | n <= k < n + 5 :: Key(sections[k].handle) == key
    ensures At(sections, n + 5).indices == map[] && At(sections, n + 5).resets == multiset{(key, 0)}
    ensures !At(sections, n + 5).used[0]
  {
    FirstLidar(sections, n, key);
    Probed(sections, n + 2, key);
    ReadToReset(sections, n + 3, key);
    WasReset(sections, n + 4, key, 0);
  }

  lemma ReadToReset(sections: seq<Section>, n: nat, key: bytes)
    requires n < |sections| && sections[n].ResetRead? && Key(sections[n].handle) == key && key in At(sections, n).probes
    requires At(sections, n).indices == map[key := 0] && At(sections, n).resets == multiset{}
    ensures At(sections, n + 1).indices == map[key := 0] && At(sections, n + 1).resets == multiset{(key, 0)}
  {
    SlotRead(sections, n, key);
  }

  lemma FirstLidar(sections: seq<Section>, n: nat, key: bytes)
    requires n + 2 <= |sections| && Untouched(At(sections, n)) && sections[n].LookUp? && sections[n + 1].Take?
    requires Key(sections[n].handle) == Key(sections[n + 1].handle) == key
    ensures At(sections, n + 2).indices == map[key := 0] && At(sections, n + 2).resets == multiset{}
    ensures At(sections, n + 2).used[0] && !At(sections, n + 2).used[1]
  {
    NewLidar(sections, n, key, 0);
  }

  lemma Stolen(sections: seq<Section>, n: nat, a: bytes, b: bytes, c: bytes)
    requires n + 5 <= |sections| && a != b && b != c
    requires At(sections, n).indices == map[] && At(sections, n).resets == multiset{(a, 0)} && !At(sections, n).used[0]
    requires sections[n].LookUp? && sections[n + 1].Take?
    requires Key(sections[n].handle) == Key(sections[n + 1].handle) == b
    requires sections[n + 2].Erase? && Key(sections[n + 2].handle) == a && sections[n + 2].index == 0
    requires sections[n + 3].LookUp? && sections[n + 4].Take?
    requires Key(sections[n + 3].handle) == Key(sections[n + 4].handle) == c
    ensures At(sections, n + 5).indices == map[b := 0, c := 0]
  {
    NewLidar(sections, n, b, 0);
    assert At(sections, n + 2).indices == map[b := 0];
    EraseAndTake(sections, n + 2, a, b, c);
  }

  /** An erase of slot 0, which `b` has, and a new lidar `c` that gets it. */
  lemma EraseAndTake(sections: seq<Section>, n: nat, a: bytes, b: bytes, c: bytes)
    requires n + 3 <= |sections| && b != c && (a, 0) in At(sections, n).resets
    requires At(sections, n).indices - {a} == map[b := 0]
    requires sections[n].Erase? && Key(sections[n].handle) == a && sections[n].index == 0
    requires sections[n + 1].LookUp? && sections[n + 2].Take?
    requires Key(sections[n + 1].handle) == Key(sections[n + 2].handle) == c
    ensures At(sections, n + 3).indices == map[b := 0, c := 0]
  {
    WasErased(sections, n, a, 0);
    NewLidar(sections, n + 1, c, 0);
  }

  /**
   Two overlapping resets of lidar `a`, with slot 1, while `b` has slot 0: the second to read the slot maps `a` to
   slot 0 as well.
   */
  lemma RevivedByReset(a: nat, b: nat)
    requires a != b
    ensures
      var s := EnterAll([LookUp(b), Take(b), LookUp(a), Take(a), ResetProbe(a), Reset(a), ResetRead(a)]);
      Key(a) in s.indices && Key(b) in s.indices && s.indices[Key(a)] == s.indices[Key(b)] == 0
  {
    var sections := [LookUp(b), Take(b), LookUp(a), Take(a), ResetProbe(a), Reset(a), ResetRead(a)];
    KeysDiffer(a, b);
    Begins(sections);
    TwoLidars(sections, 0, Key(a), Key(b));
    LateReset(sections, 4, Key(a), Key(b));
    assert sections[..7] == sections;
  }

  /** The same run goes on: the second reset frees slot 0, and `c` shares it with `b` for good. */
  lemma RevivedThenFreed(a: nat, b: nat, c: nat)
    requires a != b && a != c && b != c
    ensures
      var s := EnterAll([LookUp(b), Take(b), LookUp(a), Take(a), ResetProbe(a), Reset(a), ResetRead(a), Erase(a, 0),
                         LookUp(c), Take(c)]);
      Key(b) in s.indices && Key(c) in s.indices && s.indices[Key(b)] == s.indices[Key(c)] == 0
  {
    var sections := [LookUp(b), Take(b), LookUp(a), Take(a), ResetProbe(a), Reset(a), ResetRead(a), Erase(a, 0),
                     LookUp(c), Take(c)];
    KeysDiffer(a, b);
    KeysDiffer(a, c);
    KeysDiffer(b, c);
    Begins(sections);
    TwoLidars(sections, 0, Key(a), Key(b));
    LateReset(sections, 4, Key(a), Key(b));
    assert map[Key(b) := 0, Key(a) := 0] - {Key(a)} == map[Key(b) := 0];
    EraseAndTake(sections, 7, Key(a), Key(b), Key(c));
    assert sections[..10] == sections;
  }

  lemma TwoLidars(sections: seq<Section>, n: nat, a: bytes, b: bytes)
    requires n + 4 <= |sections| && a != b && Untouched(At(sections, n))
    requires sections[n].LookUp? && sections[n + 1].Take?
    requires Key(sections[n].handle) == Key(sections[n + 1].handle) == b
    requires sections[n + 2].LookUp? && sections[n + 3].Take?
    requires Key(sections[n + 2].handle) == Key(sections[n + 3].handle) == a
    ensures At(sections, n + 4).indices == map[b := 0, a := 1] && At(sections, n + 4).resets == multiset{}
  {
    FirstLidar(sections, n, b);
    NewLidar(sections, n + 2, a, 1);
  }

  /** After the reset of `a` is complete, another call is about to read its slot. */
  lemma ProbedAndReset(sections: seq<Section>, n: nat, a: bytes, b: bytes)
    requires n + 2 <= |sections| && a != b && At(sections, n).indices == map[b := 0, a := 1]
    requires sections[n].Probe? || sections[n].ResetProbe?
    requires sections[n + 1].Reset? && Key(sections[n].handle) == Key(sections[n + 1].handle) == a
    ensures At(sections, n + 2).indices == map[b := 0] && At(sections, n + 2).resets == At(sections, n).resets
    ensures if sections[n].Probe? then a in At(sections, n + 2).found else a in At(sections, n + 2).probes
  {
    Probed(sections, n, a);
    WasReset(sections, n + 1, a, 1);
  }

  lemma LateReset(sections: seq<Section>, n: nat, a: bytes, b: bytes)
    requires n + 3 <= |sections| && a != b && At(sections, n).indices == map[b := 0, a := 1]
    requires At(sections, n).resets == multiset{}
    requires sections[n].ResetProbe? && sections[n + 1].Reset? && sections[n + 2].ResetRead?
    requires forall k | n <= k < n + 3 :: Key(sections[k].handle) == a
    ensures At(sections, n + 3).indices == map[b := 0, a := 0] && At(sections, n + 3).resets == multiset{(a, 0)}
  {
    ProbedAndReset(sections, n, a, b);
    SlotRead(sections, n + 2, a);
  }

  /** One reset of lidar `a`, with slot 1, during a call of GetIndex: `a` ends up with slot 0, which is that of `b`. */
  lemma RevivedByGetIndex(a: nat, b: nat)
    requires a != b
    ensures
      var s := EnterAll([LookUp(b), Take(b), LookUp(a), Take(a), Probe(a), Reset(a), Read(a)]);
      Key(a) in s.indices && Key(b) in s.indices && s.indices[Key(a)] == s.indices[Key(b)] == 0
  {
    var sections := [LookUp(b), Take(b), LookUp(a), Take(a), Probe(a), Reset(a), Read(a)];
    KeysDiffer(a, b);
    Begins(sections);
    TwoLidars(sections, 0, Key(a), Key(b));
    LateGet(sections, 4, Key(a), Key(b));
    assert sections[..7] == sections;
  }

  lemma LateGet(sections: seq<Section>, n: nat, a: bytes, b: bytes)
    requires n + 3 <= |sections| && a != b && At(sections, n).indices == map[b := 0, a := 1]
    requires sections[n].Probe? && sections[n + 1].Reset? && sections[n + 2].Read?
    requires forall k | n <= k < n + 3 :: Key(sections[k].handle) == a
    ensures At(sections, n + 3).indices == map[b := 0, a := 0]
  {
    ProbedAndReset(sections, n, a, b);
    LastSection(sections, n + 2);
  }
}
