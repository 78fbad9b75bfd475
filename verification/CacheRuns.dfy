/**
 Interleaved calls of the index cache. `GetFreeIndex` looks its key up under the lock, lets the lock go, and takes
 a slot under the lock without looking again. `GetIndex` and `LvxGetIndex` find the key without the lock and then
 read its slot; `ResetIndex` does both without the lock and then erases key and slot under it. None of them looks
 again, and reading the slot of a key that has gone maps the key to slot 0. An access without the lock touches the
 map only, where each locked part has one step, so every part counts as one step.
 */
module CacheRuns {
  import opened Bytes
  import opened CacheIndex

  /**
   What the calls share. `pending` are the keys of the calls that are about to take a slot, `found` and `probes` those
   of the calls that have found their key and are about to read its slot, for a reset in `probes`, and `resets` the
   keys and slots of the calls that are about to erase.
   */
  datatype Shared = Shared(
    indices: map<bytes, nat>,
    used: seq<bool>,
    pending: multiset<bytes>,
    found: multiset<bytes>,
    probes: multiset<bytes>,
    resets: multiset<(bytes, nat)>)

  function Start(): (s: Shared) {
    Shared(map[], seq(MAX_SOURCE_LIDAR, _ => false), multiset{}, multiset{}, multiset{}, multiset{})
  }

  /** A part of a call that runs by itself; `Reset` is a call of `ResetIndex` that nothing interrupts. */
  datatype Section =
    | LookUp(handle: nat)
    | Take(handle: nat)
    | Probe(handle: nat)
    | Read(handle: nat)
    | ResetProbe(handle: nat)
    | ResetRead(handle: nat)
    | Erase(handle: nat, index: nat)
    | Reset(handle: nat)

  function Enter(s: Shared, section: Section): (t: Shared)
    requires |s.used| == MAX_SOURCE_LIDAR
    ensures |t.used| == MAX_SOURCE_LIDAR
  {
    var key := Key(section.handle);
    match section
    case LookUp(_) => if key in s.indices then s else s.(pending := s.pending + multiset{key})
    case Take(_) =>
      if key !in s.pending then s
      else if FirstFree(s.used) == |s.used| then s.(pending := s.pending - multiset{key})
      else
        s.(indices := s.indices[key := FirstFree(s.used)], used := s.used[FirstFree(s.used) := true],
           pending := s.pending - multiset{key})
    case Probe(_) => if key in s.indices then s.(found := s.found + multiset{key}) else s
    case Read(_) => if key !in s.found then s else Fetched(s.(found := s.found - multiset{key}), key)
    case ResetProbe(_) => if key in s.indices then s.(probes := s.probes + multiset{key}) else s
    case ResetRead(_) =>
      if key !in s.probes then s
      else
        var t := Fetched(s.(probes := s.probes - multiset{key}), key);
        t.(resets := t.resets + multiset{(key, t.indices[key])})
    case Erase(_, index) =>
      if (key, index) !in s.resets then s
      else Erased(s.(resets := s.resets - multiset{(key, index)}), key, index)
    case Reset(_) =>
      if key in s.indices then Erased(s, key, s.indices[key]) else s
  }

  /** Reading the slot of a key that is not there puts the key there, with slot 0. */
  function Fetched(s: Shared, key: bytes): (t: Shared)
    ensures key in t.indices && t.used == s.used
  {
    if key in s.indices then s else s.(indices := s.indices[key := 0])
  }

  function Erased(s: Shared, key: bytes, index: nat): (t: Shared)
    ensures |t.used| == |s.used|
  {
    if index < |s.used| then s.(indices := s.indices - {key}, used := s.used[index := false]) else s
  }

  /**
   A call of GetFreeIndex that nothing interrupts changes nothing for a known lidar, nor when all slots are in use, and
   otherwise maps the lidar to the first free slot, as the method of the object does.
   */
  lemma GetFreeIndexIsItsSections(s: Shared, handle: nat, index: nat)
    requires |s.used| == MAX_SOURCE_LIDAR && Key(handle) !in s.pending
    ensures
      var t := Enter(Enter(s, LookUp(handle)), Take(handle));
      && (Key(handle) in s.indices || false !in s.used ==> t == s)
      && (Key(handle) !in s.indices && index < |s.used| && !s.used[index] && (forall k | 0 <= k < index :: s.used[k])
          ==> t == s.(indices := s.indices[Key(handle) := index], used := s.used[index := true]))
  {
    assert s.pending + multiset{Key(handle)} - multiset{Key(handle)} == s.pending;
    if index < |s.used| && !s.used[index] && forall k | 0 <= k < index :: s.used[k] {
      assert FirstFree(s.used) == index;
    }
  }

  /** A reset that nothing interrupts is its three sections one after the other: key and slot are erased. */
  lemma ResetIsItsSections(s: Shared, handle: nat)
    requires |s.used| == MAX_SOURCE_LIDAR && Key(handle) in s.indices
    ensures
      var t := Enter(Enter(s, ResetProbe(handle)), ResetRead(handle));
      Enter(s, Reset(handle)) == Enter(t, Erase(handle, s.indices[Key(handle)]))
    ensures s.indices[Key(handle)] < |s.used| ==>
      Enter(s, Reset(handle)) ==
        s.(indices := s.indices - {Key(handle)}, used := s.used[s.indices[Key(handle)] := false])
  {
    var key := Key(handle);
    var pair := (key, s.indices[key]);
    assert s.probes + multiset{key} - multiset{key} == s.probes;
    assert s.resets + multiset{pair} - multiset{pair} == s.resets;
  }

  /** A call of GetIndex that nothing interrupts changes nothing. */
  lemma GetIndexChangesNothing(s: Shared, handle: nat)
    requires |s.used| == MAX_SOURCE_LIDAR && Key(handle) !in s.found
    ensures Enter(Enter(s, Probe(handle)), Read(handle)) == s
  {
    assert s.found + multiset{Key(handle)} - multiset{Key(handle)} == s.found;
  }

  function EnterAll(sections: seq<Section>): (t: Shared)
    ensures |t.used| == MAX_SOURCE_LIDAR
  {
    if sections == [] then Start()
    else Enter(EnterAll(sections[..|sections| - 1]), sections[|sections| - 1])
  }

  lemma LastSection(sections: seq<Section>, n: nat)
    requires n < |sections|
    ensures EnterAll(sections[..n + 1]) == Enter(EnterAll(sections[..n]), sections[n])
  {
    assert sections[..n + 1][..n] == sections[..n];
  }

  // ---------------------------------------------------------------- What one section can spoil

  /** An erase frees a slot that another lidar has by now. */
  ghost predicate Steals(s: Shared, section: Section) {
    && section.Erase? && (Key(section.handle), section.index) in s.resets && section.index < |s.used|
    && exists k :: k in s.indices && k != Key(section.handle) && s.indices[k] == section.index
  }

  /** A slot is taken for a lidar that has got one in the meantime. */
  predicate Overtakes(s: Shared, section: Section) {
    && section.Take? && Key(section.handle) in s.pending && Key(section.handle) in s.indices
    && FirstFree(s.used) < |s.used|
  }

  /** An erase unmaps a lidar that has got another slot in the meantime. */
  predicate Strands(s: Shared, section: Section) {
    && section.Erase? && (Key(section.handle), section.index) in s.resets && section.index < |s.used|
    && Key(section.handle) in s.indices && s.indices[Key(section.handle)] != section.index
  }

  /** A slot is read for a lidar that has been unmapped since it was found. */
  predicate ReadsLate(s: Shared, section: Section) {
    && ((section.Read? && Key(section.handle) in s.found) || (section.ResetRead? && Key(section.handle) in s.probes))
    && Key(section.handle) !in s.indices
  }

  /** A late read maps its lidar to slot 0 while that slot is free or another lidar's. */
  ghost predicate Revives(s: Shared, section: Section)
    requires |s.used| == MAX_SOURCE_LIDAR
  {
    ReadsLate(s, section) && (s.used[0] ==> Owned(s.indices, 0))
  }

  ghost predicate Sound(s: Shared) {
    Injective(s.indices, s.used)
  }

  ghost predicate Exact(s: Shared) {
    Injective(s.indices, s.used) && NoLeak(s.indices, s.used)
  }

  /** A section keeps the mapping injective exactly when it neither steals nor revives. */
  lemma SectionSound(s: Shared, section: Section)
    requires |s.used| == MAX_SOURCE_LIDAR && Sound(s)
    ensures Sound(Enter(s, section)) <==> !Steals(s, section) && !Revives(s, section)
  {
    var key := Key(section.handle);
    if section.Take? && FirstFree(s.used) < |s.used| {
      Taken(s.indices, s.used, key, FirstFree(s.used));
    } else if section.Reset? && key in s.indices {
      Given(s.indices, s.used, key);
    } else if section.Erase? && (key, section.index) in s.resets && section.index < |s.used| {
      EraseSound(s.indices, s.used, key, section.index);
    } else if section.Read? || section.ResetRead? {
      ReadSound(s, section);
    }
  }

  lemma ReadSound(s: Shared, section: Section)
    requires |s.used| == MAX_SOURCE_LIDAR && Sound(s) && (section.Read? || section.ResetRead?)
    ensures Sound(Enter(s, section)) <==> !Revives(s, section)
  {
    if ReadsLate(s, section) {
      FetchSound(s.indices, s.used, Key(section.handle));
    }
  }

  lemma FetchSound(indices: map<bytes, nat>, used: seq<bool>, key: bytes)
    requires Injective(indices, used) && key !in indices && |used| > 0
    ensures Injective(indices[key := 0], used) <==> used[0] && !Owned(indices, 0)
  {
    var now := indices[key := 0];
    assert key in now && now[key] == 0;
    if Owned(indices, 0) {
      var k :| k in indices && indices[k] == 0;
      assert k in now && now[k] == 0;
    }
  }

  lemma EraseSound(indices: map<bytes, nat>, used: seq<bool>, key: bytes, i: nat)
    requires Injective(indices, used) && i < |used|
    ensures Injective(indices - {key}, used[i := false])
       <==> !exists k :: k in indices && k != key && indices[k] == i
  {
    if k :| k in indices && k != key && indices[k] == i {
      assert k in indices - {key} && !used[i := false][(indices - {key})[k]];
    }
  }

  /** A section keeps used and mapped slots the same exactly when it does none of the four. */
  lemma SectionExact(s: Shared, section: Section)
    requires |s.used| == MAX_SOURCE_LIDAR && Exact(s)
    ensures Exact(Enter(s, section)) <==>
      !Steals(s, section) && !Overtakes(s, section) && !Strands(s, section) && !ReadsLate(s, section)
  {
    var key := Key(section.handle);
    SectionSound(s, section);
    if section.Take? && FirstFree(s.used) < |s.used| && key in s.pending {
      if key in s.indices {
        Remapped(s.indices, s.used, key, FirstFree(s.used));
      } else {
        Taken(s.indices, s.used, key, FirstFree(s.used));
      }
    } else if section.Reset? && key in s.indices {
      Given(s.indices, s.used, key);
    } else if section.Erase? && (key, section.index) in s.resets && section.index < |s.used| {
      if !Steals(s, section) {
        EraseExact(s.indices, s.used, key, section.index);
      }
    }
  }

  /** A lidar that is mapped anew leaves its slot behind. */
  lemma Remapped(indices: map<bytes, nat>, used: seq<bool>, key: bytes, f: nat)
    requires Injective(indices, used) && key in indices && f < |used| && !used[f]
    ensures indices[key] < |used| && used[f := true][indices[key]] && !Owned(indices[key := f], indices[key])
    ensures !NoLeak(indices[key := f], used[f := true])
  {
    var i, now := indices[key], used[f := true];
    assert now[i] && !Owned(indices[key := f], i);
  }

  lemma EraseExact(indices: map<bytes, nat>, used: seq<bool>, key: bytes, i: nat)
    requires Injective(indices, used) && NoLeak(indices, used) && i < |used|
    requires forall k | k in indices && k != key :: indices[k] != i
    ensures NoLeak(indices - {key}, used[i := false]) <==> (key in indices ==> indices[key] == i)
  {
    var left, now := indices - {key}, used[i := false];
    if key in indices && indices[key] != i {
      assert now[indices[key]] && !Owned(left, indices[key]);
    } else {
      forall x | 0 <= x < |now| && now[x]
        ensures Owned(left, x)
      {
        assert Owned(indices, x);
        var k :| k in indices && indices[k] == x;
        assert k in left && left[k] == x;
      }
    }
  }

  // ---------------------------------------------------------------- Whole runs

  ghost predicate AlwaysSound(sections: seq<Section>) {
    forall n: nat | n <= |sections| :: Sound(EnterAll(sections[..n]))
  }

  ghost predicate AlwaysExact(sections: seq<Section>) {
    forall n: nat | n <= |sections| :: Exact(EnterAll(sections[..n]))
  }

  ghost predicate NoneSteals(sections: seq<Section>) {
    forall n: nat | n < |sections| :: !Steals(EnterAll(sections[..n]), sections[n])
  }

  ghost predicate NoneOvertakes(sections: seq<Section>) {
    forall n: nat | n < |sections| :: !Overtakes(EnterAll(sections[..n]), sections[n])
  }

  ghost predicate NoneStrands(sections: seq<Section>) {
    forall n: nat | n < |sections| :: !Strands(EnterAll(sections[..n]), sections[n])
  }

  ghost predicate NoneReadsLate(sections: seq<Section>) {
    forall n: nat | n < |sections| :: !ReadsLate(EnterAll(sections[..n]), sections[n])
  }

  ghost predicate NoneRevives(sections: seq<Section>) {
    forall n: nat | n < |sections| :: !Revives(EnterAll(sections[..n]), sections[n])
  }

  lemma StartExact()
    ensures Exact(EnterAll([]))
  {
  }

  lemma {:induction false} SoundTo(sections: seq<Section>, n: nat)
    requires n <= |sections| && NoneSteals(sections) && NoneRevives(sections)
    ensures Sound(EnterAll(sections[..n]))
    decreases n
  {
    if n == 0 {
      StartExact();
      assert sections[..0] == [];
    } else {
      SoundTo(sections, n - 1);
      LastSection(sections, n - 1);
      SectionSound(EnterAll(sections[..n - 1]), sections[n - 1]);
    }
  }

  /**
   However the sections of several calls interleave, no two lidars ever share a slot and every mapped slot is in use,
   exactly when no erase frees a slot that another lidar has by then, and no late read finds slot 0 free or another
   lidar's. (A late read of a slot 0 that has leaked gives it an owner again.)
   */
  lemma InjectiveThroughout(sections: seq<Section>)
    ensures AlwaysSound(sections) <==> NoneSteals(sections) && NoneRevives(sections)
  {
    if NoneSteals(sections) && NoneRevives(sections) {
      forall n: nat | n <= |sections|
        ensures Sound(EnterAll(sections[..n]))
      {
        SoundTo(sections, n);
      }
    }
    if AlwaysSound(sections) {
      forall n: nat | n < |sections|
        ensures !Steals(EnterAll(sections[..n]), sections[n]) && !Revives(EnterAll(sections[..n]), sections[n])
      {
        assert Sound(EnterAll(sections[..n])) && Sound(EnterAll(sections[..n + 1]));
        LastSection(sections, n);
        SectionSound(EnterAll(sections[..n]), sections[n]);
      }
    }
  }

  lemma {:induction false} ExactTo(sections: seq<Section>, n: nat)
    requires n <= |sections|
    requires NoneSteals(sections) && NoneOvertakes(sections) && NoneStrands(sections) && NoneReadsLate(sections)
    ensures Exact(EnterAll(sections[..n]))
    decreases n
  {
    if n == 0 {
      StartExact();
      assert sections[..0] == [];
    } else {
      ExactTo(sections, n - 1);
      LastSection(sections, n - 1);
      SectionExact(EnterAll(sections[..n - 1]), sections[n - 1]);
    }
  }

  /**
   The used slots are at all times exactly the mapped ones, each mapped once, exactly when no section frees another
   lidar's slot, takes a second slot for a lidar, unmaps a lidar from a slot it does not free, or reads the slot of a
   lidar unmapped since it was found.
   */
  lemma ExactThroughout(sections: seq<Section>)
    ensures AlwaysExact(sections) <==>
      NoneSteals(sections) && NoneOvertakes(sections) && NoneStrands(sections) && NoneReadsLate(sections)
  {
    if NoneSteals(sections) && NoneOvertakes(sections) && NoneStrands(sections) && NoneReadsLate(sections) {
      forall n: nat | n <= |sections|
        ensures Exact(EnterAll(sections[..n]))
      {
        ExactTo(sections, n);
      }
    }
    if AlwaysExact(sections) {
      forall n: nat | n < |sections|
        ensures !Steals(EnterAll(sections[..n]), sections[n]) && !Overtakes(EnterAll(sections[..n]), sections[n])
        ensures !Strands(EnterAll(sections[..n]), sections[n]) && !ReadsLate(EnterAll(sections[..n]), sections[n])
      {
        assert Exact(EnterAll(sections[..n])) && Exact(EnterAll(sections[..n + 1]));
        LastSection(sections, n);
        SectionExact(EnterAll(sections[..n]), sections[n]);
      }
    }
  }

  // ---------------------------------------------------------------- Uninterrupted resets

  /** No call of ResetIndex is interrupted, and none unmaps a lidar that a call of GetIndex has just found. */
  ghost predicate Whole(sections: seq<Section>) {
    && (forall section | section in sections :: !section.ResetProbe? && !section.ResetRead? && !section.Erase?)
    && NoneReadsLate(sections)
  }

  lemma WholeSteps(sections: seq<Section>)
    requires Whole(sections)
    ensures NoneSteals(sections) && NoneStrands(sections) && NoneRevives(sections)
  {
    forall n: nat | n < |sections|
      ensures !sections[n].Erase?
    {
      assert sections[n] in sections;
    }
  }

  /** However the calls of GetFreeIndex interleave, no two lidars ever share a slot and every mapped slot is in use. */
  lemma WholeInjective(sections: seq<Section>)
    requires Whole(sections)
    ensures AlwaysSound(sections)
  {
    WholeSteps(sections);
    InjectiveThroughout(sections);
  }

  /** A slot in use that no lidar has stays so: nothing gives it back. */
  lemma LeakStays(s: Shared, section: Section)
    requires |s.used| == MAX_SOURCE_LIDAR && Sound(s) && !section.Erase? && !ReadsLate(s, section)
    requires !NoLeak(s.indices, s.used)
    ensures !NoLeak(Enter(s, section).indices, Enter(s, section).used)
  {
    var i :| 0 <= i < |s.used| && s.used[i] && !Owned(s.indices, i);
    var t := Enter(s, section);
    assert t.used[i] by {
      if section.Reset? && Key(section.handle) in s.indices {
        assert s.indices[Key(section.handle)] != i;
      }
    }
    forall k | k in t.indices
      ensures t.indices[k] != i
    {
      assert k in s.indices ==> s.indices[k] != i;
    }
    assert !Owned(t.indices, i);
  }

  lemma {:induction false} LeakStaysTo(sections: seq<Section>, n: nat, m: nat)
    requires n <= m <= |sections| && Whole(sections)
    requires !NoLeak(EnterAll(sections[..n]).indices, EnterAll(sections[..n]).used)
    ensures !NoLeak(EnterAll(sections[..m]).indices, EnterAll(sections[..m]).used)
    decreases m - n
  {
    if n < m {
      WholeSteps(sections);
      SoundTo(sections, n);
      assert sections[n] in sections;
      LeakStays(EnterAll(sections[..n]), sections[n]);
      LastSection(sections, n);
      LeakStaysTo(sections, n + 1, m);
    }
  }

  /**
   When no reset is interrupted, the used slots end up exactly the mapped ones exactly when no call ever took a slot
   for a lidar that had got one since the call looked it up.
   */
  lemma LeakExactly(sections: seq<Section>)
    requires Whole(sections)
    ensures NoLeak(EnterAll(sections).indices, EnterAll(sections).used) <==> NoneOvertakes(sections)
  {
    assert sections[..|sections|] == sections;
    if NoneOvertakes(sections) {
      NoneOvertakesNoLeak(sections);
    } else {
      var n: nat :| n < |sections| && Overtakes(EnterAll(sections[..n]), sections[n]);
      OvertakenLeaks(sections, n);
      LeakStaysTo(sections, n + 1, |sections|);
    }
  }

  lemma NoneOvertakesNoLeak(sections: seq<Section>)
    requires Whole(sections) && NoneOvertakes(sections)
    ensures NoLeak(EnterAll(sections).indices, EnterAll(sections).used)
  {
    WholeSteps(sections);
    ExactTo(sections, |sections|);
    assert sections[..|sections|] == sections;
  }

  lemma OvertakenLeaks(sections: seq<Section>, n: nat)
    requires Whole(sections) && n < |sections| && Overtakes(EnterAll(sections[..n]), sections[n])
    ensures !NoLeak(EnterAll(sections[..n + 1]).indices, EnterAll(sections[..n + 1]).used)
  {
    WholeSteps(sections);
    SoundTo(sections, n);
    LastSection(sections, n);
    OvertakingLeaks(EnterAll(sections[..n]), sections[n]);
  }

  lemma OvertakingLeaks(s: Shared, section: Section)
    requires |s.used| == MAX_SOURCE_LIDAR && Sound(s) && Overtakes(s, section)
    ensures !NoLeak(Enter(s, section).indices, Enter(s, section).used)
  {
    Remapped(s.indices, s.used, Key(section.handle), FirstFree(s.used));
  }
}
