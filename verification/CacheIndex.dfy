/** The index cache: which of the 32 lidar slots each known lidar has. */
module CacheIndex {
  import opened Bytes
  import opened Numbers

  const LIVOX_LIDAR_TYPE := 8
  const MAX_SOURCE_LIDAR := 32

  // ---------------------------------------------------------------- Keys

  /** `livox_lidar_` */
  const PREFIX: bytes := [0x6C, 0x69, 0x76, 0x6F, 0x78, 0x5F, 0x6C, 0x69, 0x64, 0x61, 0x72, 0x5F]

  function Key(handle: nat): (key: bytes) {
    PREFIX + Decimal(handle)
  }

  /** Different handles have different keys. */
  lemma KeysDiffer(a: nat, b: nat)
    ensures Key(a) == Key(b) <==> a == b
  {
    if Key(a) == Key(b) {
      assert Decimal(a) == Key(a)[|PREFIX|..] && Decimal(b) == Key(b)[|PREFIX|..];
      WholeAt(Decimal(a));
      DecimalRead(Decimal(a), 0, a);
      DecimalRead(Decimal(b), 0, b);
    }
  }

  lemma {:induction false} SuffixAt(t: bytes, p: nat)
    requires p <= |t|
    ensures At(t, p, t[p..])
    decreases |t| - p
  {
    if p < |t| {
      SuffixAt(t, p + 1);
      assert t[p..][1..] == t[p + 1..];
    }
  }

  lemma WholeAt(t: bytes)
    ensures At(t, 0, t)
  {
    SuffixAt(t, 0);
    assert t[0..] == t;
  }

  // ---------------------------------------------------------------- The mapping

  /** No two keys have the same slot, and every slot that is mapped is in use. */
  ghost predicate Injective(indices: map<bytes, nat>, used: seq<bool>) {
    && (forall k | k in indices :: indices[k] < |used| && used[indices[k]])
    && forall k, l | k in indices && l in indices && k != l :: indices[k] != indices[l]
  }

  /** A slot is in use only when it is mapped. */
  ghost predicate NoLeak(indices: map<bytes, nat>, used: seq<bool>) {
    forall i | 0 <= i < |used| && used[i] :: Owned(indices, i)
  }

  ghost predicate Owned(indices: map<bytes, nat>, i: nat) {
    exists k :: k in indices && indices[k] == i
  }

  /** The first free slot, or the number of slots. */
  function FirstFree(used: seq<bool>, i: nat := 0): (f: nat)
    requires i <= |used|
    ensures i <= f <= |used| && (forall k | i <= k < f :: used[k]) && (f < |used| ==> !used[f])
    decreases |used| - i
  {
    if i == |used| then i else if !used[i] then i else FirstFree(used, i + 1)
  }

  lemma Taken(indices: map<bytes, nat>, used: seq<bool>, key: bytes, f: nat)
    requires Injective(indices, used) && f < |used| && !used[f]
    ensures Injective(indices[key := f], used[f := true])
    ensures key !in indices && NoLeak(indices, used) ==> NoLeak(indices[key := f], used[f := true])
  {
    if key !in indices && NoLeak(indices, used) {
      var now := used[f := true];
      forall i | 0 <= i < |now| && now[i]
        ensures Owned(indices[key := f], i)
      {
        if i == f {
          assert indices[key := f][key] == i;
        } else {
          assert Owned(indices, i);
          var k :| k in indices && indices[k] == i;
          assert indices[key := f][k] == i;
        }
      }
    }
  }

  lemma Given(indices: map<bytes, nat>, used: seq<bool>, key: bytes)
    requires Injective(indices, used) && key in indices
    ensures indices[key] < |used| && Injective(indices - {key}, used[indices[key] := false])
    ensures NoLeak(indices, used) ==> NoLeak(indices - {key}, used[indices[key] := false])
  {
    if NoLeak(indices, used) {
      var now := used[indices[key] := false];
      forall i | 0 <= i < |now| && now[i]
        ensures Owned(indices - {key}, i)
      {
        assert Owned(indices, i);
        var k :| k in indices && indices[k] == i;
        assert k in indices - {key};
      }
    }
  }

  // ---------------------------------------------------------------- The object

  class CacheIndex {

    var mapIndex: map<bytes, nat>
    const indexCache: array<bool>

    /** The used slots are exactly the mapped ones, each mapped once. */
    ghost predicate Valid()
      reads this, indexCache
    {
      && indexCache.Length == MAX_SOURCE_LIDAR
      && Injective(mapIndex, indexCache[..]) && NoLeak(mapIndex, indexCache[..])
    }

    constructor ()
      ensures Valid() && mapIndex == map[] && fresh(indexCache)
    {
      mapIndex := map[];
      indexCache := new bool[MAX_SOURCE_LIDAR](_ => false);
    }

    /**
     The slot of a lidar; a new lidar gets the first free one. Minus one says that the type is unknown or that all
     slots are in use.
     */
    method GetFreeIndex(lidarType: nat, handle: nat) returns (ret: int, index: nat)
      requires Valid()
      modifies this`mapIndex, indexCache
      ensures Valid() && (ret == 0 || ret == -1)
      ensures ret == 0 <==>
        lidarType == LIVOX_LIDAR_TYPE && (Key(handle) in old(mapIndex) || false in old(indexCache[..]))
      ensures ret == 0 ==> index < MAX_SOURCE_LIDAR && mapIndex == old(mapIndex)[Key(handle) := index]
      ensures ret == 0 && Key(handle) in old(mapIndex) ==> index == old(mapIndex)[Key(handle)]
      ensures ret == 0 && Key(handle) !in old(mapIndex) ==>
        !old(indexCache[..])[index] && forall k | 0 <= k < index :: old(indexCache[..])[k]
      ensures ret == -1 ==> mapIndex == old(mapIndex)
    {
      index := 0;
      if lidarType != LIVOX_LIDAR_TYPE {
        return -1, 0;
      }
      var key := Key(handle);
      if key in mapIndex {
        return 0, mapIndex[key];
      }
      ret, index := TakeFirstFree(key);
    }

    method TakeFirstFree(key: bytes) returns (ret: int, index: nat)
      requires Valid() && key !in mapIndex
      modifies this`mapIndex, indexCache
      ensures Valid() && (ret == 0 || ret == -1)
      ensures ret == 0 <==> false in old(indexCache[..])
      ensures ret == 0 ==> index < MAX_SOURCE_LIDAR && mapIndex == old(mapIndex)[key := index]
      ensures ret == 0 ==> !old(indexCache[..])[index] && forall k | 0 <= k < index :: old(indexCache[..])[k]
      ensures ret == -1 ==> mapIndex == old(mapIndex) && indexCache[..] == old(indexCache[..])
    {
      index := 0;
      while index < indexCache.Length
        invariant index <= indexCache.Length
        invariant forall k | 0 <= k < index :: indexCache[k]
      {
        if !indexCache[index] {
          Taken(mapIndex, indexCache[..], key, index);
          indexCache[index] := true;
          mapIndex := mapIndex[key := index];
          assert indexCache[..] == old(indexCache[..])[index := true];
          return 0, index;
        }
        index := index + 1;
      }
      ret := -1;
    }

    method GetIndex(lidarType: nat, handle: nat) returns (ret: int, index: nat)
      requires Valid()
      ensures ret == 0 <==> lidarType == LIVOX_LIDAR_TYPE && Key(handle) in mapIndex
      ensures ret == 0 ==> index == mapIndex[Key(handle)] < MAX_SOURCE_LIDAR
      ensures ret == 0 || ret == -1
    {
      index := 0;
      if lidarType != LIVOX_LIDAR_TYPE {
        return -1, 0;
      }
      var key := Key(handle);
      if key in mapIndex {
        return 0, mapIndex[key];
      }
      ret := -1;
    }

    /** Frees the slot of a lidar that has one. */
    method ResetIndex(lidarType: nat, handle: nat)
      requires Valid()
      modifies this`mapIndex, indexCache
      ensures Valid()
      ensures mapIndex == if lidarType == LIVOX_LIDAR_TYPE then old(mapIndex) - {Key(handle)} else old(mapIndex)
    {
      if lidarType != LIVOX_LIDAR_TYPE {
        return;
      }
      var key := Key(handle);
      if key in mapIndex {
        var index := mapIndex[key];
        Given(mapIndex, indexCache[..], key);
        mapIndex := mapIndex - {key};
        indexCache[index] := false;
        assert indexCache[..] == old(indexCache[..])[index := false];
      }
    }

    /** Two lidars that have slots have different slots. */
    lemma DifferentSlots(a: nat, b: nat)
      requires Valid() && a != b && Key(a) in mapIndex && Key(b) in mapIndex
      ensures mapIndex[Key(a)] != mapIndex[Key(b)]
    {
      KeysDiffer(a, b);
    }
  }
}
