/**
 * The memory object model: one structured, one semantic and any number of
 * visual sub-records under a single identity, plus the factory that
 * assigns that identity and the `touch` helpers.
 */
module Schema {
  import opened Wrappers

  /** A reading of the abstract clock that stands for `utcnow()`. */
  type Timestamp = nat

  /** The `source` tag of every sub-record. */
  datatype Source = Text | Image | Mixed

  /** The category tag of a structured sub-record. */
  datatype EntityType = Concept | DeviceComponent | SoftwareSpec | Rule

  /** The attributes `BaseEntity` gives every sub-record. */
  datatype Base = Base(entityId: string, createdAt: Timestamp, updatedAt: Timestamp, confidence: real, source: Source)
  {
    /** `BaseEntity.touch`: record the time of a modification and nothing else. */
    function Touch(now: Timestamp): (r: Base)
      ensures r.updatedAt == now
      ensures r.entityId == entityId && r.createdAt == createdAt
      ensures r.confidence == confidence && r.source == source
    {
      this.(updatedAt := now)
    }
  }

  /** The header of a sub-record built at `now`: both timestamps are `now`. */
  function NewBase(entityId: string, source: Source, confidence: real, now: Timestamp): Base
  {
    Base(entityId, now, now, confidence, source)
  }

  /** `StructuredEntity`; the source's `function` field is `function_` here. */
  datatype Structured = Structured(
    base: Base,
    entityType: EntityType,
    name: string,
    function_: string,
    description: string,
    device: Option<string>,
    domain: Option<string>,
    aliases: seq<string>,
    constraints: seq<string>,
    metadata: map<string, string>)

  /** `SemanticEntity` without the unused embedding placeholder. */
  datatype Semantic = Semantic(base: Base, texts: seq<string>, languageHints: seq<string>)

  /** `VisualEntity` without the unused embedding placeholder; `bbox` is `[x, y, w, h]`. */
  datatype Visual = Visual(base: Base, imageId: string, bbox: seq<real>, viewAngle: Option<string>)

  /** `MemoryObject`, the unit the manager stores. */
  datatype MemoryObject = MemoryObject(
    entityId: string,
    structured: Structured,
    semantic: Semantic,
    visuals: seq<Visual>,
    usageCount: nat,
    lastAccessedAt: Timestamp)
  {
    /** `MemoryObject.touch`: one more use, at `now`; nothing else changes. */
    function Touch(now: Timestamp): (r: MemoryObject)
      ensures r.usageCount == usageCount + 1 && r.lastAccessedAt == now
      ensures r.entityId == entityId && r.structured == structured
      ensures r.semantic == semantic && r.visuals == visuals
    {
      this.(usageCount := usageCount + 1, lastAccessedAt := now)
    }
  }

  /** An object's identity, as a function value for `Lists.DistinctBy`. */
  function IdOf(m: MemoryObject): string
  {
    m.entityId
  }

  /** The object after `n` uses at `now` (the object itself when `n` is 0). */
  function TouchedTimes(m: MemoryObject, n: nat, now: Timestamp): (r: MemoryObject)
    ensures r.usageCount == m.usageCount + n
    ensures r.entityId == m.entityId && r.structured == m.structured
    ensures r.semantic == m.semantic && r.visuals == m.visuals
    ensures n > 0 ==> r.lastAccessedAt == now
    ensures n == 0 ==> r == m
  {
    if n == 0 then m else m.(usageCount := m.usageCount + n, lastAccessedAt := now)
  }

  /** Uses at the same instant add up. */
  lemma TouchesAddUp(m: MemoryObject, a: nat, b: nat, now: Timestamp)
    ensures m.Touch(now) == TouchedTimes(m, 1, now)
    ensures TouchedTimes(m, a, now).Touch(now) == TouchedTimes(m, a + 1, now)
    ensures TouchedTimes(TouchedTimes(m, a, now), b, now) == TouchedTimes(m, a + b, now)
  {
  }

  /** Every sub-record carries the object's identity. */
  predicate SharesIdentity(m: MemoryObject)
  {
    && m.structured.base.entityId == m.entityId
    && m.semantic.base.entityId == m.entityId
    && forall v :: v in m.visuals ==> v.base.entityId == m.entityId
  }

  predicate IsHexDigit(c: char)
  {
    '0' <= c <= '9' || 'a' <= c <= 'f'
  }

  /** What `uuid.uuid4().hex` yields: 32 lower-case hexadecimal digits. */
  predicate IsUuidHex(h: string)
  {
    |h| == 32 && forall i :: 0 <= i < |h| ==> IsHexDigit(h[i])
  }

  /**
   * `generate_id(prefix)`, with the random uuid passed in: the prefix, an
   * underscore and the first 12 hexadecimal digits of the uuid.
   */
  function GenerateId(prefix: string, uuidHex: string): (id: string)
    requires IsUuidHex(uuidHex)
    ensures |id| == |prefix| + 13
    ensures id[..|prefix|] == prefix && id[|prefix|] == '_'
    ensures forall i :: |prefix| < i < |id| ==> IsHexDigit(id[i])
  {
    prefix + "_" + uuidHex[..12]
  }

  /** Two uuids give the same id exactly when their first 12 digits agree. */
  lemma GenerateIdCollides(prefix: string, a: string, b: string)
    requires IsUuidHex(a) && IsUuidHex(b)
    ensures GenerateId(prefix, a) == GenerateId(prefix, b) <==> a[..12] == b[..12]
  {
    var n := |prefix| + 1;
    if GenerateId(prefix, a) == GenerateId(prefix, b) {
      assert GenerateId(prefix, a)[n..] == a[..12];
      assert GenerateId(prefix, b)[n..] == b[..12];
    }
  }

  /**
   * `MemoryObject.create`: the only way an identity is assigned. One fresh
   * id is shared by the object and both sub-records; the object starts with
   * no visuals and no uses.
   */
  function Create(
    name: string,
    entityType: EntityType,
    source: Source,
    device: Option<string>,
    domain: Option<string>,
    uuidHex: string,
    now: Timestamp): (m: MemoryObject)
    requires IsUuidHex(uuidHex)
    ensures m.entityId == GenerateId("mem", uuidHex)
    ensures SharesIdentity(m)
    ensures m.visuals == [] && m.usageCount == 0
    ensures m.structured.name == name && m.structured.entityType == entityType
    ensures m.structured.device == device && m.structured.domain == domain
    ensures m.structured.base.source == source && m.semantic.base.source == source
    ensures m.structured.function_ == "" && m.structured.description == ""
    ensures m.structured.aliases == [] && m.structured.constraints == [] && m.structured.metadata == map[]
    ensures m.semantic.texts == [] && m.semantic.languageHints == []
  {
    var id := GenerateId("mem", uuidHex);
    var structured := Structured(NewBase(id, source, 1.0, now), entityType, name, "", "", device, domain, [], [], map[]);
    var semantic := Semantic(NewBase(id, source, 1.0, now), [], []);
    MemoryObject(id, structured, semantic, [], 0, now)
  }

  /** The visual sub-record `add_visual` builds for object `entityId`. */
  function NewVisual(entityId: string, imageId: string, bbox: seq<real>, viewAngle: Option<string>, confidence: real, now: Timestamp): Visual
  {
    Visual(NewBase(entityId, Image, confidence, now), imageId, bbox, viewAngle)
  }

  /**
   * `MemoryObject.add_visual`: append one image-sourced visual sub-record
   * carrying the object's identity; earlier visuals and all other fields stay.
   */
  function AddVisual(m: MemoryObject, imageId: string, bbox: seq<real>, viewAngle: Option<string>, confidence: real, now: Timestamp): (r: MemoryObject)
    ensures |r.visuals| == |m.visuals| + 1 && r.visuals[..|m.visuals|] == m.visuals
    ensures var v := r.visuals[|m.visuals|];
      && v.base.entityId == m.entityId && v.base.source == Image
      && v.imageId == imageId && v.bbox == bbox && v.viewAngle == viewAngle && v.base.confidence == confidence
    ensures r.(visuals := m.visuals) == m
    ensures SharesIdentity(m) ==> SharesIdentity(r)
  {
    m.(visuals := m.visuals + [NewVisual(m.entityId, imageId, bbox, viewAngle, confidence, now)])
  }
}
