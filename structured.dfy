/**
 * `StructuredMemory`: what a memory is and how it is used, kept in its
 * structured record. Every operation reaches the object through
 * `MemoryManager.get` (so a found object is touched once) and writes it
 * back with `save_memory`.
 */
module StructuredLayer {
  import opened Wrappers
  import opened Lists
  import opened Schema
  import opened Store

  /** Python's truthiness of an optional dict: `None` and `{}` are both false. */
  predicate Given(metadata: Option<map<string, string>>)
  {
    metadata.Some? && |metadata.value| > 0
  }

  /**
   * The structured record after `define`: each argument that is not `None`
   * replaces its field, a non-empty `metadata` is merged in (its entries win),
   * and the record is touched.
   */
  function Redefine(
    s: Structured,
    function_: Option<string>,
    description: Option<string>,
    metadata: Option<map<string, string>>,
    confidence: Option<real>,
    now: Timestamp): (r: Structured)
    ensures r.function_ == if function_.Some? then function_.value else s.function_
    ensures r.description == if description.Some? then description.value else s.description
    ensures r.base.confidence == if confidence.Some? then confidence.value else s.base.confidence
    ensures Given(metadata) ==> r.metadata.Keys == s.metadata.Keys + metadata.value.Keys
    ensures Given(metadata) ==> forall k :: k in metadata.value ==> r.metadata[k] == metadata.value[k]
    ensures forall k :: k in s.metadata && !(Given(metadata) && k in metadata.value) ==> k in r.metadata && r.metadata[k] == s.metadata[k]
    ensures !Given(metadata) ==> r.metadata == s.metadata
    ensures r.base.updatedAt == now
    ensures r.base.entityId == s.base.entityId && r.base.createdAt == s.base.createdAt && r.base.source == s.base.source
    ensures r.name == s.name && r.entityType == s.entityType && r.device == s.device && r.domain == s.domain
    ensures r.aliases == s.aliases && r.constraints == s.constraints
  {
    var s := if function_.Some? then s.(function_ := function_.value) else s;
    var s := if description.Some? then s.(description := description.value) else s;
    var s := if confidence.Some? then s.(base := s.base.(confidence := confidence.value)) else s;
    var s := if Given(metadata) then s.(metadata := s.metadata + metadata.value) else s;
    s.(base := s.base.Touch(now))
  }

  /** Defining the same things twice leaves the record as the first time (but for the time stamp). */
  lemma RedefineIdempotent(
    s: Structured,
    function_: Option<string>,
    description: Option<string>,
    metadata: Option<map<string, string>>,
    confidence: Option<real>,
    now: Timestamp,
    later: Timestamp)
    ensures var once := Redefine(s, function_, description, metadata, confidence, now);
      Redefine(once, function_, description, metadata, confidence, later) == once.(base := once.base.Touch(later))
  {
    var once := Redefine(s, function_, description, metadata, confidence, now);
    if Given(metadata) {
      assert once.metadata + metadata.value == once.metadata;
    }
  }

  /**
   * The record after `add_requirements`: each alias and each constraint not
   * yet present is appended, in the order given.
   */
  function WithRequirements(s: Structured, aliases: seq<string>, constraints: seq<string>): (r: Structured)
    ensures |s.aliases| <= |r.aliases| && r.aliases[..|s.aliases|] == s.aliases
    ensures |s.constraints| <= |r.constraints| && r.constraints[..|s.constraints|] == s.constraints
    ensures forall a :: a in r.aliases <==> a in s.aliases || a in aliases
    ensures forall c :: c in r.constraints <==> c in s.constraints || c in constraints
    ensures NoDup(s.aliases) ==> NoDup(r.aliases)
    ensures NoDup(s.constraints) ==> NoDup(r.constraints)
    ensures r.(aliases := s.aliases, constraints := s.constraints) == s
  {
    s.(aliases := AppendAbsent(s.aliases, aliases), constraints := AppendAbsent(s.constraints, constraints))
  }

  /** Whether `add_requirements` has anything to append. */
  predicate RequirementsNew(s: Structured, aliases: seq<string>, constraints: seq<string>)
  {
    (exists a :: a in aliases && a !in s.aliases) || (exists c :: c in constraints && c !in s.constraints)
  }

  /**
   * Adding the same requirements again appends nothing, so the second
   * `add_requirements` reports no change.
   */
  lemma WithRequirementsIdempotent(s: Structured, aliases: seq<string>, constraints: seq<string>)
    ensures var once := WithRequirements(s, aliases, constraints);
      WithRequirements(once, aliases, constraints) == once && !RequirementsNew(once, aliases, constraints)
  {
    AppendAbsentIdempotent(s.aliases, aliases);
    AppendAbsentIdempotent(s.constraints, constraints);
  }

  /** The dictionary `get_definition` returns. */
  datatype Definition = Definition(
    entityId: string,
    name: string,
    entityType: EntityType,
    function_: string,
    description: string,
    aliases: seq<string>,
    constraints: seq<string>,
    device: Option<string>,
    domain: Option<string>,
    metadata: map<string, string>,
    confidence: real)

  function DefinitionOf(m: MemoryObject): Definition
  {
    var s := m.structured;
    Definition(m.entityId, s.name, s.entityType, s.function_, s.description, s.aliases,
      s.constraints, s.device, s.domain, s.metadata, s.base.confidence)
  }

  /** `is_well_defined` of a found object: it has a name and a function. */
  predicate WellDefined(m: MemoryObject)
  {
    |m.structured.name| > 0 && |m.structured.function_| > 0
  }

  /** What `get_definition` reads back after `define` is what `define` wrote. */
  lemma DefineThenRead(
    m: MemoryObject,
    function_: Option<string>,
    description: Option<string>,
    metadata: Option<map<string, string>>,
    confidence: Option<real>,
    now: Timestamp)
    ensures var d := DefinitionOf(m.(structured := Redefine(m.structured, function_, description, metadata, confidence, now)));
      && d.entityId == m.entityId && d.name == m.structured.name
      && (function_.Some? ==> d.function_ == function_.value)
      && (description.Some? ==> d.description == description.value)
      && (confidence.Some? ==> d.confidence == confidence.value)
      && (Given(metadata) ==> forall k :: k in metadata.value ==> k in d.metadata && d.metadata[k] == metadata.value[k])
  {
  }

  /**
   * A freshly created memory is not well defined (its function is empty);
   * defining a non-empty function for a named memory makes it well defined.
   */
  lemma WellDefinedByDefine(
    m: MemoryObject,
    function_: Option<string>,
    description: Option<string>,
    metadata: Option<map<string, string>>,
    confidence: Option<real>,
    now: Timestamp)
    requires |m.structured.name| > 0 && function_.Some? && |function_.value| > 0
    ensures WellDefined(m.(structured := Redefine(m.structured, function_, description, metadata, confidence, now)))
  {
  }

  lemma CreatedNotWellDefined(
    name: string,
    entityType: EntityType,
    source: Source,
    device: Option<string>,
    domain: Option<string>,
    uuidHex: string,
    now: Timestamp)
    requires IsUuidHex(uuidHex)
    ensures !WellDefined(Create(name, entityType, source, device, domain, uuidHex, now))
  {
  }

  /** Whether `is_well_defined` holds for the identity of `m` in `cache`. */
  predicate WellDefinedIn(cache: map<string, MemoryObject>, m: MemoryObject)
  {
    m.entityId in cache && WellDefined(cache[m.entityId])
  }

  /**
   * `filter_well_defined` against the cache it reads: the inputs, in order,
   * whose cached object is well defined.
   */
  function WellDefinedAmong(cache: map<string, MemoryObject>, ms: seq<MemoryObject>): (r: seq<MemoryObject>)
    ensures |r| <= |ms|
    ensures forall m :: m in r <==> m in ms && WellDefinedIn(cache, m)
    decreases |ms|
  {
    if ms == [] then []
    else
      var last := ms[|ms| - 1];
      WellDefinedAmong(cache, ms[..|ms| - 1]) + if WellDefinedIn(cache, last) then [last] else []
  }

  /** One more input: the step the filtering loop of `filter_well_defined` takes at position `i`. */
  lemma WellDefinedAmongStep(cache: map<string, MemoryObject>, ms: seq<MemoryObject>, i: nat)
    requires i < |ms|
    ensures WellDefinedAmong(cache, ms[..i + 1]) == WellDefinedAmong(cache, ms[..i]) + if WellDefinedIn(cache, ms[i]) then [ms[i]] else []
  {
    TakeOneMore(ms, i);
  }

  /** Using objects does not change whether one of them is well defined. */
  lemma WellDefinedInTouched(cache: map<string, MemoryObject>, seen: seq<MemoryObject>, m: MemoryObject, now: Timestamp)
    ensures WellDefinedIn(TouchEach(cache, seen, 1, now), m) == WellDefinedIn(cache, m)
  {
    TouchEachKeeps(cache, seen, 1, now);
  }

  /** Using objects does not change which of them are well defined. */
  lemma {:induction false} WellDefinedAmongTouched(cache: map<string, MemoryObject>, ms: seq<MemoryObject>, seen: seq<MemoryObject>, now: Timestamp)
    ensures WellDefinedAmong(TouchEach(cache, seen, 1, now), ms) == WellDefinedAmong(cache, ms)
    decreases |ms|
  {
    if ms != [] {
      TouchEachKeeps(cache, seen, 1, now);
      WellDefinedAmongTouched(cache, ms[..|ms| - 1], seen, now);
    }
  }

  class StructuredMemory {
    const manager: MemoryManager

    constructor (manager: MemoryManager)
      ensures this.manager == manager
    {
      this.manager := manager;
    }

    /**
     * `define`: replace the function, description and confidence given, merge
     * non-empty metadata, and if anything was given touch the record and save.
     * Confidence is stored as given, without clamping.
     */
    method Define(
      id: string,
      function_: Option<string>,
      description: Option<string>,
      metadata: Option<map<string, string>>,
      confidence: Option<real>,
      now: Timestamp) returns (changed: bool)
      requires manager.Valid()
      modifies manager`memories, manager`store
      ensures manager.Valid()
      ensures changed <==>
        id in old(manager.memories) && (function_.Some? || description.Some? || confidence.Some? || Given(metadata))
      ensures id !in old(manager.memories) ==> manager.memories == old(manager.memories)
      ensures id in old(manager.memories) ==>
        var m := old(manager.memories)[id].Touch(now);
        manager.memories == old(manager.memories)[id :=
          if changed then m.(structured := Redefine(m.structured, function_, description, metadata, confidence, now))
          else m]
    {
      var r := manager.Get(id, now);
      if r.None? {
        return false;
      }
      var m := r.value;
      changed := function_.Some? || description.Some? || confidence.Some? || Given(metadata);
      if changed {
        var m' := m.(structured := Redefine(m.structured, function_, description, metadata, confidence, now));
        OverwriteTwice(old(manager.memories), id, m, m');
        manager.WriteBack(m');
      }
    }

    /**
     * `add_requirements`: append each alias and each constraint not already
     * present, in order; touch and save only when something was appended.
     * A `None` list behaves as the empty list.
     */
    method AddRequirements(id: string, aliases: seq<string>, constraints: seq<string>, now: Timestamp)
      returns (changed: bool)
      requires manager.Valid()
      modifies manager`memories, manager`store
      ensures manager.Valid()
      ensures changed <==>
        id in old(manager.memories) && RequirementsNew(old(manager.memories)[id].structured, aliases, constraints)
      ensures id !in old(manager.memories) ==> manager.memories == old(manager.memories)
      ensures id in old(manager.memories) ==>
        var m := old(manager.memories)[id].Touch(now);
        var s := WithRequirements(m.structured, aliases, constraints);
        manager.memories == old(manager.memories)[id :=
          if changed then m.(structured := s.(base := s.base.Touch(now))) else m]
    {
      var r := manager.Get(id, now);
      if r.None? {
        return false;
      }
      var m := r.value;
      var s := m.structured;
      var als, newAlias := AppendMissing(s.aliases, aliases);
      var cons, newConstraint := AppendMissing(s.constraints, constraints);
      changed := newAlias || newConstraint;
      if changed {
        s := s.(aliases := als, constraints := cons);
        s := s.(base := s.base.Touch(now));
        var m' := m.(structured := s);
        OverwriteTwice(old(manager.memories), id, m, m');
        manager.WriteBack(m');
      }
    }

    /** `get_definition`: the structured record of a found object, as a dictionary. */
    method GetDefinition(id: string, now: Timestamp) returns (d: Option<Definition>)
      requires manager.Valid()
      modifies manager`memories, manager`store
      ensures manager.Valid()
      ensures d.None? <==> id !in old(manager.memories)
      ensures d.Some? ==> d.value == DefinitionOf(old(manager.memories)[id])
      ensures id !in old(manager.memories) ==> manager.memories == old(manager.memories)
      ensures id in old(manager.memories) ==>
        manager.memories == old(manager.memories)[id := old(manager.memories)[id].Touch(now)]
    {
      var r := manager.Get(id, now);
      if r.None? {
        return None;
      }
      d := Some(DefinitionOf(r.value));
    }

    /** `is_well_defined`: the object exists and has a name and a function. */
    method IsWellDefined(id: string, now: Timestamp) returns (ok: bool)
      requires manager.Valid()
      modifies manager`memories, manager`store
      ensures manager.Valid()
      ensures ok <==> id in old(manager.memories) && WellDefined(old(manager.memories)[id])
      ensures id !in old(manager.memories) ==> manager.memories == old(manager.memories)
      ensures id in old(manager.memories) ==>
        manager.memories == old(manager.memories)[id := old(manager.memories)[id].Touch(now)]
    {
      var r := manager.Get(id, now);
      if r.None? {
        return false;
      }
      ok := |r.value.structured.name| > 0 && |r.value.structured.function_| > 0;
    }

    /**
     * `filter_well_defined`: the inputs, in order, whose cached object is well
     * defined. Each input is looked up once, so each occurrence is a use.
     */
    method FilterWellDefined(ms: seq<MemoryObject>, now: Timestamp) returns (r: seq<MemoryObject>)
      requires manager.Valid()
      modifies manager`memories, manager`store
      ensures manager.Valid()
      ensures r == WellDefinedAmong(old(manager.memories), ms)
      ensures manager.memories == TouchEach(old(manager.memories), ms, 1, now)
    {
      ghost var cache0 := manager.memories;
      r := [];
      var i := 0;
      while i < |ms|
        invariant 0 <= i <= |ms|
        invariant manager.Valid()
        invariant manager.memories == TouchEach(cache0, ms[..i], 1, now)
        invariant r == WellDefinedAmong(cache0, ms[..i])
      {
        var id := ms[i].entityId;
        TouchEachStep(cache0, ms, i, 1, now);
        WellDefinedAmongStep(cache0, ms, i);
        WellDefinedInTouched(cache0, ms[..i], ms[i], now);
        if id in manager.memories {
          TouchesAddUp(manager.memories[id], 0, 0, now);
        }
        var ok := IsWellDefined(id, now);
        if ok {
          r := r + [ms[i]];
        }
        i := i + 1;
      }
      assert ms[..i] == ms;
    }
  }
}
