/**
 * `MemoryManager`, the single source of truth: a RAM cache of memory objects
 * kept in agreement with a durable store, plus a RAM index from lower-cased
 * names to identities. The relational table is modelled as a map from
 * identity to object (the row encoding is taken to round-trip exactly).
 */
module Store {
  import opened Wrappers
  import opened Lists
  import opened Strings
  import opened Schema

  /** The name-index key of an object: its lower-cased name. */
  function NameKey(m: MemoryObject): string
  {
    Lower(m.structured.name)
  }

  /** `index.get(key, [])`. */
  function Bucket(index: map<string, seq<string>>, key: string): seq<string>
  {
    if key in index then index[key] else []
  }

  /**
   * Every object is filed under its own identity and its sub-records share
   * it: what `save_memory`, keyed by `entity_id`, writes.
   */
  ghost predicate WellFormedCache(cache: map<string, MemoryObject>)
  {
    forall id :: id in cache ==> cache[id].entityId == id && SharesIdentity(cache[id])
  }

  /** `order` lists the cached identities once each (Python's dict order). */
  ghost predicate OrderMatches(order: seq<string>, cache: map<string, MemoryObject>)
  {
    NoDup(order) && forall id :: id in order <==> id in cache
  }

  /**
   * The name index lists every cached identity exactly once, in the bucket
   * of its lower-cased name, and lists nothing else. Buckets may be empty.
   */
  ghost predicate IndexMatches(index: map<string, seq<string>>, cache: map<string, MemoryObject>)
  {
    && (forall key, i :: key in index && 0 <= i < |index[key]| ==>
          index[key][i] in cache && NameKey(cache[index[key][i]]) == key)
    && (forall key :: key in index ==> NoDup(index[key]))
    && (forall id :: id in cache ==> NameKey(cache[id]) in index && id in index[NameKey(cache[id])])
  }

  /** The cache, its insertion order and its name index fit together. */
  ghost predicate CacheAgrees(cache: map<string, MemoryObject>, order: seq<string>, index: map<string, seq<string>>)
  {
    WellFormedCache(cache) && OrderMatches(order, cache) && IndexMatches(index, cache)
  }

  /** `_register_to_cache` of a new identity keeps cache, order and index in agreement. */
  lemma RegisterKeepsCache(cache: map<string, MemoryObject>, order: seq<string>, index: map<string, seq<string>>, m: MemoryObject)
    requires CacheAgrees(cache, order, index)
    requires m.entityId !in cache && SharesIdentity(m)
    ensures CacheAgrees(cache[m.entityId := m], order + [m.entityId],
      index[NameKey(m) := Bucket(index, NameKey(m)) + [m.entityId]])
  {
    RegisterKeepsIndex(index, cache, m);
    assert m.entityId !in order;
  }

  lemma RegisterKeepsIndex(index: map<string, seq<string>>, cache: map<string, MemoryObject>, m: MemoryObject)
    requires IndexMatches(index, cache) && m.entityId !in cache
    ensures IndexMatches(index[NameKey(m) := Bucket(index, NameKey(m)) + [m.entityId]], cache[m.entityId := m])
  {
    assert m.entityId !in Bucket(index, NameKey(m));
  }

  /** Replacing a cached object by one with the same identity and name keeps the agreement. */
  lemma ReplaceKeepsCache(cache: map<string, MemoryObject>, order: seq<string>, index: map<string, seq<string>>, m: MemoryObject)
    requires CacheAgrees(cache, order, index)
    requires m.entityId in cache && SharesIdentity(m) && NameKey(m) == NameKey(cache[m.entityId])
    ensures CacheAgrees(cache[m.entityId := m], order, index)
  {
  }

  /** Dropping a cached identity from cache, order and its bucket keeps the agreement. */
  lemma RemoveKeepsCache(cache: map<string, MemoryObject>, order: seq<string>, index: map<string, seq<string>>, id: string)
    requires CacheAgrees(cache, order, index) && id in cache
    ensures NameKey(cache[id]) in index && id in index[NameKey(cache[id])] && id in order
    ensures CacheAgrees(cache - {id}, RemoveFirst(order, id),
      index[NameKey(cache[id]) := RemoveFirst(index[NameKey(cache[id])], id)])
  {
    var key := NameKey(cache[id]);
    RemoveFirstNoDup(order, id);
    RemoveFirstNoDup(index[key], id);
    var index' := index[key := RemoveFirst(index[key], id)];
    forall k, i | k in index' && 0 <= i < |index'[k]|
      ensures index'[k][i] in cache - {id} && NameKey(cache[index'[k][i]]) == k
    {
      assert index'[k][i] in index'[k];
      if k != key {
        assert index'[k][i] == index[k][i];
      }
    }
  }

  /** A bucket holds exactly the cached identities whose lower-cased name is its key, once each. */
  lemma BucketHoldsName(index: map<string, seq<string>>, cache: map<string, MemoryObject>, key: string)
    requires IndexMatches(index, cache)
    ensures NoDup(Bucket(index, key))
    ensures forall id :: id in Bucket(index, key) <==> id in cache && NameKey(cache[id]) == key
  {
  }

  /**
   * The cache after `times` uses, at `now`, of the cached object under the
   * identity of each of `ms` in turn (objects no longer cached are skipped).
   */
  function TouchEach(cache: map<string, MemoryObject>, ms: seq<MemoryObject>, times: nat, now: Timestamp): (r: map<string, MemoryObject>)
    ensures r.Keys == cache.Keys
    decreases |ms|
  {
    if ms == [] then cache
    else
      var c := TouchEach(cache, ms[..|ms| - 1], times, now);
      var id := ms[|ms| - 1].entityId;
      if id in c then c[id := TouchedTimes(c[id], times, now)] else c
  }

  /** The number of uses `TouchEach` gives identity `id`: `times` per occurrence in `ms`. */
  function Uses(ms: seq<MemoryObject>, id: string, times: nat): (n: nat)
    ensures (forall m :: m in ms ==> m.entityId != id) ==> n == 0
    decreases |ms|
  {
    if ms == [] then 0
    else Uses(ms[..|ms| - 1], id, times) + (if ms[|ms| - 1].entityId == id then times else 0)
  }

  /** Each cached object is used `times` times per occurrence of its identity in `ms`. */
  lemma {:induction false} TouchEachCounts(cache: map<string, MemoryObject>, ms: seq<MemoryObject>, times: nat, now: Timestamp)
    ensures forall id :: id in cache ==>
      TouchEach(cache, ms, times, now)[id] == TouchedTimes(cache[id], Uses(ms, id, times), now)
    decreases |ms|
  {
    if ms != [] {
      var ms' := ms[..|ms| - 1];
      TouchEachCounts(cache, ms', times, now);
      forall id | id in cache
        ensures TouchEach(cache, ms, times, now)[id] == TouchedTimes(cache[id], Uses(ms, id, times), now)
      {
        TouchesAddUp(cache[id], Uses(ms', id, times), times, now);
      }
    }
  }

  /** Some object of `ms` has identity `id`. */
  predicate HasId(ms: seq<MemoryObject>, id: string)
  {
    exists m :: m in ms && m.entityId == id
  }

  /** Among objects with distinct identities, an identity that occurs is used exactly `times` times. */
  lemma {:induction false} DistinctUses(ms: seq<MemoryObject>, id: string, times: nat)
    requires DistinctBy(IdOf, ms)
    ensures Uses(ms, id, times) == if HasId(ms, id) then times else 0
    decreases |ms|
  {
    if ms != [] {
      var ms' := ms[..|ms| - 1];
      var last := ms[|ms| - 1];
      assert DistinctBy(IdOf, ms');
      DistinctUses(ms', id, times);
      if last.entityId == id {
        forall m | m in ms'
          ensures m.entityId != id
        {
          var i :| 0 <= i < |ms'| && ms'[i] == m;
          assert IdOf(ms[i]) != IdOf(ms[|ms| - 1]);
        }
      }
      assert forall m :: m in ms <==> m in ms' || m == last;
    }
  }

  /** One more object: the step `TouchEach` takes at position `i`. */
  lemma TouchEachStep(cache: map<string, MemoryObject>, ms: seq<MemoryObject>, i: nat, times: nat, now: Timestamp)
    requires i < |ms|
    ensures var c := TouchEach(cache, ms[..i], times, now);
      TouchEach(cache, ms[..i + 1], times, now) ==
        if ms[i].entityId in c then c[ms[i].entityId := TouchedTimes(c[ms[i].entityId], times, now)] else c
  {
    TakeOneMore(ms, i);
  }

  /** Uses change usage counts and access times only. */
  lemma TouchEachKeeps(cache: map<string, MemoryObject>, ms: seq<MemoryObject>, times: nat, now: Timestamp)
    ensures forall id :: id in cache ==>
      && TouchEach(cache, ms, times, now)[id].entityId == cache[id].entityId
      && TouchEach(cache, ms, times, now)[id].structured == cache[id].structured
      && TouchEach(cache, ms, times, now)[id].semantic == cache[id].semantic
      && TouchEach(cache, ms, times, now)[id].visuals == cache[id].visuals
  {
    TouchEachCounts(cache, ms, times, now);
  }

  /**
   * Using a list of distinct objects one by one: before its turn an object
   * is as it was, and its turn uses it `times` times.
   */
  lemma DistinctTurn(cache: map<string, MemoryObject>, ms: seq<MemoryObject>, k: nat, times: nat, now: Timestamp)
    requires DistinctBy(IdOf, ms) && k < |ms| && ms[k].entityId in cache
    ensures var c := TouchEach(cache, ms[..k], times, now);
      var id := ms[k].entityId;
      && id in c && c[id] == cache[id]
      && TouchEach(cache, ms[..k + 1], times, now) == c[id := TouchedTimes(cache[id], times, now)]
  {
    var id := ms[k].entityId;
    var before := ms[..k];
    TouchEachCounts(cache, before, times, now);
    forall m | m in before
      ensures m.entityId != id
    {
      var j :| 0 <= j < k && before[j] == m;
      assert IdOf(ms[j]) != IdOf(ms[k]);
    }
    TouchEachStep(cache, ms, k, times, now);
  }

  /** Writing the same key twice keeps the second value. */
  lemma OverwriteTwice(cache: map<string, MemoryObject>, id: string, a: MemoryObject, b: MemoryObject)
    ensures cache[id := a][id := b] == cache[id := b]
  {
  }

  /** The objects of `cache` under `ids`, in that order. */
  function Snapshot(ids: seq<string>, cache: map<string, MemoryObject>): (r: seq<MemoryObject>)
    requires forall id :: id in ids ==> id in cache
    ensures |r| == |ids| && forall i :: 0 <= i < |ids| ==> r[i] == cache[ids[i]]
  {
    seq(|ids|, i requires 0 <= i < |ids| => cache[ids[i]])
  }

  lemma SnapshotStep(ids: seq<string>, cache: map<string, MemoryObject>, id: string, m: MemoryObject)
    requires id !in ids && forall x :: x in ids ==> x in cache
    ensures Snapshot(ids + [id], cache[id := m]) == Snapshot(ids, cache) + [m]
  {
  }

  class MemoryManager {
    /** `_memories`: identity to cached object. */
    var memories: map<string, MemoryObject>
    /** The insertion order of `_memories`, which Python's dict keeps. */
    var order: seq<string>
    /** `_name_index`: lower-cased name to identities. */
    var nameIndex: map<string, seq<string>>
    /** The durable table, keyed by identity. */
    var store: map<string, MemoryObject>

    ghost predicate CacheValid()
      reads this`memories, this`order, this`nameIndex
    {
      CacheAgrees(memories, order, nameIndex)
    }

    /** The cache is well formed and agrees with the store, key for key and object for object. */
    ghost predicate Valid()
      reads this
    {
      CacheValid() && store == memories
    }

    /**
     * `__init__` on an existing durable store: start from an empty cache and
     * index, then rebuild both from the stored rows. `rows` is the order in
     * which the table yields them.
     */
    constructor (durable: map<string, MemoryObject>, rows: seq<string>)
      requires WellFormedCache(durable)
      requires NoDup(rows) && forall id :: id in rows <==> id in durable
      ensures Valid()
      ensures store == durable && order == rows
    {
      memories := map[];
      order := [];
      nameIndex := map[];
      store := durable;
      new;
      LoadFromDb(rows);
    }

    /**
     * `_load_from_db`: register every stored row in the cache, in row order.
     * The rebuilt cache equals the store, and every identity sits once in the
     * bucket of its lower-cased name.
     */
    method LoadFromDb(rows: seq<string>)
      requires memories == map[] && order == [] && nameIndex == map[]
      requires WellFormedCache(store)
      requires NoDup(rows) && forall id :: id in rows <==> id in store
      modifies this`memories, this`order, this`nameIndex
      ensures Valid()
      ensures order == rows
      ensures forall id :: id in store ==> NameKey(store[id]) in nameIndex && id in nameIndex[NameKey(store[id])]
    {
      var i := 0;
      while i < |rows|
        invariant 0 <= i <= |rows|
        invariant CacheValid()
        invariant order == rows[..i]
        invariant forall id :: id in memories ==> id in store && memories[id] == store[id]
      {
        var id := rows[i];
        TakeOneMore(rows, i);
        NoDupNotBefore(rows, i);
        RegisterToCache(store[id]);
        i := i + 1;
      }
      assert rows[..i] == rows;
      assert memories.Keys == store.Keys;
    }

    /** `_register_to_cache` for an identity not yet cached. */
    method RegisterToCache(m: MemoryObject)
      requires CacheValid()
      requires m.entityId !in memories && SharesIdentity(m)
      modifies this`memories, this`order, this`nameIndex
      ensures CacheValid()
      ensures memories == old(memories)[m.entityId := m]
      ensures order == old(order) + [m.entityId]
      ensures nameIndex == old(nameIndex)[NameKey(m) := Bucket(old(nameIndex), NameKey(m)) + [m.entityId]]
    {
      RegisterKeepsCache(memories, order, nameIndex, m);
      memories := memories[m.entityId := m];
      order := order + [m.entityId];
      var key := NameKey(m);
      nameIndex := nameIndex[key := Bucket(nameIndex, key) + [m.entityId]];
    }

    /** `save_memory`: upsert the object's row, keyed by its identity. */
    method SaveMemory(m: MemoryObject)
      modifies this`store
      ensures store == old(store)[m.entityId := m]
    {
      store := store[m.entityId := m];
    }

    /**
     * A caller changing a cached object in place, through the reference
     * `get` returned. Every such change in the memory layers keeps the
     * object's identity and name.
     */
    method UpdateCached(m: MemoryObject)
      requires CacheValid()
      requires m.entityId in memories && SharesIdentity(m)
      requires m.structured.name == memories[m.entityId].structured.name
      modifies this`memories
      ensures CacheValid()
      ensures memories == old(memories)[m.entityId := m]
    {
      ReplaceKeepsCache(memories, order, nameIndex, m);
      memories := memories[m.entityId := m];
    }

    /**
     * A change made through the object `get` returned, followed by
     * `save_memory` of that object: cache and store take the new value.
     */
    method WriteBack(m: MemoryObject)
      requires Valid()
      requires m.entityId in memories && SharesIdentity(m)
      requires m.structured.name == memories[m.entityId].structured.name
      modifies this`memories, this`store
      ensures Valid()
      ensures memories == old(memories)[m.entityId := m]
    {
      UpdateCached(m);
      SaveMemory(m);
    }

    /**
     * `create_memory`: build a fresh object, register it in cache and index,
     * and save it. The uuid is passed in and is taken to give an unused id.
     */
    method CreateMemory(
      name: string,
      entityType: EntityType,
      source: Source,
      device: Option<string>,
      domain: Option<string>,
      uuidHex: string,
      now: Timestamp) returns (m: MemoryObject)
      requires Valid()
      requires IsUuidHex(uuidHex) && GenerateId("mem", uuidHex) !in memories
      modifies this
      ensures Valid()
      ensures m == Create(name, entityType, source, device, domain, uuidHex, now)
      ensures memories == old(memories)[m.entityId := m]
      ensures order == old(order) + [m.entityId]
      ensures nameIndex == old(nameIndex)[Lower(name) := Bucket(old(nameIndex), Lower(name)) + [m.entityId]]
    {
      m := Create(name, entityType, source, device, domain, uuidHex, now);
      RegisterToCache(m);
      SaveMemory(m);
    }

    /**
     * `get`: the cached object or `None`. A hit is a use: the object is
     * touched and saved, so cache and store still agree.
     */
    method Get(id: string, now: Timestamp) returns (r: Option<MemoryObject>)
      requires Valid()
      modifies this`memories, this`store
      ensures Valid()
      ensures id !in old(memories) ==> r == None && memories == old(memories)
      ensures id in old(memories) ==>
        r == Some(old(memories)[id].Touch(now)) && memories == old(memories)[id := r.value]
    {
      if id in memories {
        var m := memories[id].Touch(now);
        UpdateCached(m);
        SaveMemory(m);
        r := Some(m);
      } else {
        r := None;
      }
    }

    /**
     * `get` on each of the distinct cached identities `ids`, in order: the
     * comprehension inside `find_by_name`.
     */
    method GetAll(ids: seq<string>, now: Timestamp) returns (results: seq<MemoryObject>)
      requires Valid()
      requires NoDup(ids) && forall id :: id in ids ==> id in memories
      modifies this`memories, this`store
      ensures Valid()
      ensures memories == TouchEach(old(memories), Snapshot(ids, old(memories)), 1, now)
      ensures results == Snapshot(ids, memories)
    {
      ghost var cache0 := memories;
      ghost var found := Snapshot(ids, cache0);
      assert DistinctBy(IdOf, found) by {
        forall i, j | 0 <= i < j < |found|
          ensures IdOf(found[i]) != IdOf(found[j])
        {
          assert found[i].entityId == ids[i] && found[j].entityId == ids[j];
        }
      }
      results := [];
      var i := 0;
      while i < |ids|
        invariant 0 <= i <= |ids|
        invariant Valid()
        invariant memories == TouchEach(cache0, found[..i], 1, now)
        invariant results == Snapshot(ids[..i], memories)
      {
        var id := ids[i];
        TakeOneMore(ids, i);
        NoDupNotBefore(ids, i);
        DistinctTurn(cache0, found, i, 1, now);
        TouchesAddUp(cache0[id], 0, 0, now);
        SnapshotStep(ids[..i], memories, id, cache0[id].Touch(now));
        var r := Get(id, now);
        results := results + [r.value];
        i := i + 1;
      }
      assert ids[..i] == ids;
      assert found[..i] == found;
    }

    /**
     * `find_by_name`: the cached objects in the bucket of `name.lower()`, in
     * bucket order, each fetched through `get` and so touched once.
     */
    method FindByName(name: string, now: Timestamp) returns (results: seq<MemoryObject>)
      requires Valid()
      modifies this`memories, this`store
      ensures Valid()
      ensures var ids := Bucket(old(nameIndex), Lower(name));
        && (forall id :: id in ids <==> id in old(memories) && NameKey(old(memories)[id]) == Lower(name))
        && memories == TouchEach(old(memories), Snapshot(ids, old(memories)), 1, now)
        && results == Snapshot(ids, memories)
    {
      var ids := Bucket(nameIndex, Lower(name));
      BucketHoldsName(nameIndex, memories, Lower(name));
      results := GetAll(ids, now);
    }

    /**
     * `delete`: an unknown identity is reported and nothing changes; a known
     * one leaves the cache, the store and its name bucket (an emptied bucket
     * stays in the index).
     */
    method Delete(id: string) returns (found: bool)
      requires Valid()
      modifies this
      ensures Valid()
      ensures found == (id in old(memories))
      ensures memories == old(memories) - {id}
      ensures !found ==> order == old(order) && nameIndex == old(nameIndex)
      ensures found ==> order == RemoveFirst(old(order), id)
      ensures found ==> var key := NameKey(old(memories)[id]);
        key in old(nameIndex) && nameIndex == old(nameIndex)[key := RemoveFirst(old(nameIndex)[key], id)]
    {
      if id !in memories {
        return false;
      }
      var m := memories[id];
      RemoveKeepsCache(memories, order, nameIndex, id);
      memories := memories - {id};
      order := RemoveFirst(order, id);
      store := store - {id};
      var key := NameKey(m);
      if key in nameIndex {
        nameIndex := nameIndex[key := RemoveFirst(nameIndex[key], id)];
      }
      found := true;
    }

    /**
     * `list_all`: a snapshot of every cached object, once each, in the order
     * the objects entered the cache. It does not touch them.
     */
    function ListAll(): (r: seq<MemoryObject>)
      reads this
      requires Valid()
      ensures |r| == |order| == |memories|
      ensures forall i :: 0 <= i < |r| ==> r[i] == memories[order[i]]
      ensures forall m :: m in r <==> m.entityId in memories && memories[m.entityId] == m
      ensures DistinctBy(IdOf, r)
    {
      var r := Snapshot(order, memories);
      NoDupCardinality(order);
      assert (set id | id in order) == memories.Keys;
      r
    }
  }
}
