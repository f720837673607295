/**
 * `VisualMemory`: where a memory can be seen, as bounding boxes on images
 * kept in its visual records. Every operation reaches the object through
 * `MemoryManager.get` (so a found object is touched once) and writes back
 * with `save_memory`.
 */
module VisualLayer {
  import opened Wrappers
  import opened Lists
  import opened Schema
  import opened Store

  /** `max(0.0, min(c, 1.0))`: a confidence forced into the unit interval. */
  function Clamp(c: real): (r: real)
    ensures 0.0 <= r <= 1.0
    ensures 0.0 <= c <= 1.0 ==> r == c
    ensures c < 0.0 ==> r == 0.0
    ensures c > 1.0 ==> r == 1.0
  {
    if c < 0.0 then 0.0 else if c > 1.0 then 1.0 else c
  }

  /** A visual marks this box on this image. */
  predicate MarksPlace(v: Visual, imageId: string, bbox: seq<real>)
  {
    v.imageId == imageId && v.bbox == bbox
  }

  /** Some visual already marks this box on this image. */
  predicate Placed(vs: seq<Visual>, imageId: string, bbox: seq<real>)
  {
    exists v :: v in vs && MarksPlace(v, imageId, bbox)
  }

  /** No two visuals mark the same box on the same image. */
  predicate DistinctPlaces(vs: seq<Visual>)
  {
    forall i, j :: 0 <= i < j < |vs| ==> !MarksPlace(vs[j], vs[i].imageId, vs[i].bbox)
  }

  /** `add_visual` only appends a box that is not yet marked, so the marks stay distinct. */
  lemma AddKeepsPlacesDistinct(
    m: MemoryObject,
    imageId: string,
    bbox: seq<real>,
    viewAngle: Option<string>,
    confidence: real,
    now: Timestamp)
    requires DistinctPlaces(m.visuals) && !Placed(m.visuals, imageId, bbox)
    ensures DistinctPlaces(AddVisual(m, imageId, bbox, viewAngle, confidence, now).visuals)
  {
    var vs := AddVisual(m, imageId, bbox, viewAngle, confidence, now).visuals;
    forall i, j | 0 <= i < j < |vs|
      ensures !MarksPlace(vs[j], vs[i].imageId, vs[i].bbox)
    {
      if j == |m.visuals| {
        assert vs[i] == m.visuals[i];
        assert !MarksPlace(m.visuals[i], imageId, bbox);
      } else {
        assert vs[i] == m.visuals[i] && vs[j] == m.visuals[j];
      }
    }
  }

  /** The duplicate check of `add_visual`: scan the visuals and stop at the first match. */
  method FindPlace(vs: seq<Visual>, imageId: string, bbox: seq<real>) returns (found: bool)
    ensures found <==> Placed(vs, imageId, bbox)
  {
    var i := 0;
    while i < |vs|
      invariant 0 <= i <= |vs|
      invariant forall k :: 0 <= k < i ==> !MarksPlace(vs[k], imageId, bbox)
    {
      if vs[i].imageId == imageId && vs[i].bbox == bbox {
        assert vs[i] in vs && MarksPlace(vs[i], imageId, bbox);
        return true;
      }
      i := i + 1;
    }
    return false;
  }

  /** The visuals on one image, in order. */
  function OnImage(vs: seq<Visual>, imageId: string): (r: seq<Visual>)
    ensures |r| <= |vs|
    ensures forall v :: v in r <==> v in vs && v.imageId == imageId
  {
    Filter((v: Visual) => v.imageId == imageId, vs)
  }

  /** After `add_visual`, reading the visuals of that image yields the new visual last. */
  lemma AddedVisualOnImage(
    m: MemoryObject,
    imageId: string,
    bbox: seq<real>,
    viewAngle: Option<string>,
    confidence: real,
    now: Timestamp)
    ensures var vs := AddVisual(m, imageId, bbox, viewAngle, confidence, now).visuals;
      OnImage(vs, imageId) == OnImage(m.visuals, imageId) + [vs[|vs| - 1]]
  {
    var vs := AddVisual(m, imageId, bbox, viewAngle, confidence, now).visuals;
    assert vs[..|vs| - 1] == m.visuals;
  }

  /**
   * The visuals after `update_confidence`: each visual on the image gets
   * confidence `c`; nothing else about any visual changes.
   */
  function Recalibrated(vs: seq<Visual>, imageId: string, c: real): (r: seq<Visual>)
    ensures |r| == |vs|
    ensures forall i :: 0 <= i < |vs| ==>
      r[i].base.confidence == (if vs[i].imageId == imageId then c else vs[i].base.confidence)
    ensures forall i :: 0 <= i < |vs| ==> r[i].(base := r[i].base.(confidence := vs[i].base.confidence)) == vs[i]
  {
    seq(|vs|, i requires 0 <= i < |vs| =>
      if vs[i].imageId == imageId then vs[i].(base := vs[i].base.(confidence := c)) else vs[i])
  }

  /** Re-setting the same confidence changes nothing more. */
  lemma RecalibratedIdempotent(vs: seq<Visual>, imageId: string, c: real)
    ensures Recalibrated(Recalibrated(vs, imageId, c), imageId, c) == Recalibrated(vs, imageId, c)
  {
  }

  /** A recalibration keeps every box where it was, so distinct marks stay distinct. */
  lemma RecalibratedKeepsPlaces(vs: seq<Visual>, imageId: string, c: real)
    requires DistinctPlaces(vs)
    ensures DistinctPlaces(Recalibrated(vs, imageId, c))
  {
    var r := Recalibrated(vs, imageId, c);
    assert forall i :: 0 <= i < |vs| ==> r[i].imageId == vs[i].imageId && r[i].bbox == vs[i].bbox;
  }

  /** A recalibration keeps every visual's identity. */
  lemma RecalibratedSharesIdentity(m: MemoryObject, imageId: string, c: real, now: Timestamp)
    requires SharesIdentity(m)
    ensures SharesIdentity(m.(visuals := Recalibrated(m.visuals, imageId, c)).Touch(now))
  {
    var vs := Recalibrated(m.visuals, imageId, c);
    forall v | v in vs
      ensures v.base.entityId == m.entityId
    {
      var i :| 0 <= i < |vs| && vs[i] == v;
      assert m.visuals[i] in m.visuals;
    }
  }

  /**
   * The loop of `update_confidence` on a copy of the visuals: set the
   * confidence of each visual on the image, noting whether there was one.
   */
  method Recalibrate(vs: seq<Visual>, imageId: string, c: real) returns (r: seq<Visual>, changed: bool)
    ensures r == Recalibrated(vs, imageId, c)
    ensures changed <==> exists v :: v in vs && v.imageId == imageId
  {
    r := vs;
    changed := false;
    var i := 0;
    while i < |vs|
      invariant 0 <= i <= |vs| && |r| == |vs|
      invariant forall k :: 0 <= k < i ==> r[k] == Recalibrated(vs, imageId, c)[k]
      invariant forall k :: i <= k < |vs| ==> r[k] == vs[k]
      invariant changed <==> exists k :: 0 <= k < i && vs[k].imageId == imageId
    {
      if r[i].imageId == imageId {
        r := r[i := r[i].(base := r[i].base.(confidence := c))];
        changed := true;
      }
      i := i + 1;
    }
  }

  class VisualMemory {
    const manager: MemoryManager

    constructor (manager: MemoryManager)
      ensures this.manager == manager
    {
      this.manager := manager;
    }

    /**
     * `add_visual` without metadata: unless the box is already marked on that
     * image, append an image-sourced visual carrying the object's identity,
     * touch the object and save.
     */
    method AddVisual(
      id: string,
      imageId: string,
      bbox: seq<real>,
      viewAngle: Option<string>,
      confidence: real,
      now: Timestamp) returns (added: bool)
      requires manager.Valid()
      modifies manager`memories, manager`store
      ensures manager.Valid()
      ensures added <==> id in old(manager.memories) && !Placed(old(manager.memories)[id].visuals, imageId, bbox)
      ensures id !in old(manager.memories) ==> manager.memories == old(manager.memories)
      ensures id in old(manager.memories) ==>
        var m := old(manager.memories)[id].Touch(now);
        manager.memories == old(manager.memories)[id :=
          if added then Schema.AddVisual(m, imageId, bbox, viewAngle, confidence, now).Touch(now) else m]
    {
      var r := manager.Get(id, now);
      if r.None? {
        return false;
      }
      var m := r.value;
      var placed := FindPlace(m.visuals, imageId, bbox);
      if placed {
        return false;
      }
      var visual := NewVisual(m.entityId, imageId, bbox, viewAngle, confidence, now);
      var m' := m.(visuals := m.visuals + [visual]).Touch(now);
      OverwriteTwice(old(manager.memories), id, m, m');
      manager.WriteBack(m');
      added := true;
    }

    /**
     * `get_visuals`: the visuals of a found object (touched by the lookup),
     * only those on `imageId` when one is given; none for an unknown id.
     */
    method GetVisuals(id: string, imageId: Option<string>, now: Timestamp) returns (vs: seq<Visual>)
      requires manager.Valid()
      modifies manager`memories, manager`store
      ensures manager.Valid()
      ensures id !in old(manager.memories) ==> vs == [] && manager.memories == old(manager.memories)
      ensures id in old(manager.memories) ==>
        var all := old(manager.memories)[id].visuals;
        && vs == (if imageId.None? then all else OnImage(all, imageId.value))
        && manager.memories == old(manager.memories)[id := old(manager.memories)[id].Touch(now)]
    {
      var r := manager.Get(id, now);
      if r.None? {
        return [];
      }
      if imageId.None? {
        return r.value.visuals;
      }
      vs := OnImage(r.value.visuals, imageId.value);
    }

    /**
     * `update_confidence`: give every visual on the image the clamped
     * confidence; touch and save only when the object has such a visual.
     */
    method UpdateConfidence(id: string, imageId: string, confidence: real, now: Timestamp) returns (changed: bool)
      requires manager.Valid()
      modifies manager`memories, manager`store
      ensures manager.Valid()
      ensures changed <==> id in old(manager.memories) && exists v :: v in old(manager.memories)[id].visuals && v.imageId == imageId
      ensures id !in old(manager.memories) ==> manager.memories == old(manager.memories)
      ensures id in old(manager.memories) ==>
        var m := old(manager.memories)[id].Touch(now);
        manager.memories == old(manager.memories)[id :=
          if changed then m.(visuals := Recalibrated(m.visuals, imageId, Clamp(confidence))).Touch(now) else m]
    {
      var r := manager.Get(id, now);
      if r.None? {
        return false;
      }
      var m := r.value;
      var safe := if confidence < 1.0 then confidence else 1.0;
      safe := if 0.0 < safe then safe else 0.0;
      var vs;
      vs, changed := Recalibrate(m.visuals, imageId, safe);
      assert safe == Clamp(confidence);
      if changed {
        RecalibratedSharesIdentity(m, imageId, safe, now);
        var m' := m.(visuals := vs).Touch(now);
        OverwriteTwice(old(manager.memories), id, m, m');
        manager.WriteBack(m');
      }
    }

    /** `has_visual`: the object exists and has at least one visual. */
    method HasVisual(id: string, now: Timestamp) returns (b: bool)
      requires manager.Valid()
      modifies manager`memories, manager`store
      ensures manager.Valid()
      ensures b <==> id in old(manager.memories) && |old(manager.memories)[id].visuals| > 0
      ensures id !in old(manager.memories) ==> manager.memories == old(manager.memories)
      ensures id in old(manager.memories) ==>
        manager.memories == old(manager.memories)[id := old(manager.memories)[id].Touch(now)]
    {
      var r := manager.Get(id, now);
      b := r.Some? && |r.value.visuals| > 0;
    }
  }
}
