/**
 * `MemoryMerger`: the decision core. It asks the semantic layer for
 * candidates, scores each through the structured and visual layers, ranks
 * them, and reinforces the memories it returns. Every layer works on the
 * same manager, and every lookup through it is a use.
 */
module Merger {
  import opened Lists
  import opened Strings
  import opened Schema
  import opened Store
  import opened StructuredLayer
  import opened SemanticLayer
  import opened VisualLayer
  import opened Ranking

  /** `usage_count += 1` followed by `touch()`: two uses at `now`. */
  lemma ReinforceIsTwoUses(m: MemoryObject, now: Timestamp)
    ensures m.(usageCount := m.usageCount + 1).Touch(now) == TouchedTimes(m, ReinforceUses, now)
  {
  }

  /** The objects of `cache` under the identities of `ws`, in order, each after two more uses. */
  function Reinforced(cache: map<string, MemoryObject>, ws: seq<MemoryObject>, now: Timestamp): (r: seq<MemoryObject>)
    requires forall w :: w in ws ==> w.entityId in cache
    ensures |r| == |ws|
    ensures forall j :: 0 <= j < |ws| ==> r[j] == TouchedTimes(cache[ws[j].entityId], ReinforceUses, now)
  {
    seq(|ws|, j requires 0 <= j < |ws| => TouchedTimes(cache[ws[j].entityId], ReinforceUses, now))
  }

  /** One more memory: the step the reinforcement loop takes at position `k`. */
  lemma ReinforcedStep(cache: map<string, MemoryObject>, ws: seq<MemoryObject>, k: nat, now: Timestamp)
    requires k < |ws| && forall w :: w in ws ==> w.entityId in cache
    ensures forall w :: w in ws[..k + 1] ==> w.entityId in cache
    ensures Reinforced(cache, ws[..k + 1], now) == Reinforced(cache, ws[..k], now) + [TouchedTimes(cache[ws[k].entityId], ReinforceUses, now)]
  {
    TakeOneMore(ws, k);
  }

  /**
   * `current_score` as the scoring loop accumulates it for a candidate that
   * survived the visual filter, in hundredths.
   */
  method AccumulateScore(wellDefined: bool, requireVisual: bool, hasVisual: bool, usage: nat) returns (current: int)
    ensures current == Score(wellDefined, requireVisual, hasVisual, usage)
  {
    current := BaseScore;
    if wellDefined {
      current := current + WellDefinedBonus;
    } else {
      current := current - IncompletePenalty;
    }
    if requireVisual {
      current := current + VisualMatchBonus;
    } else if hasVisual {
      current := current + VisualPresentBonus;
    }
    current := current + UsageBonus(usage);
  }

  /**
   * The memories `retrieve` keeps are distinct candidates, and after the
   * scoring each stands in the cache with its two lookups counted.
   */
  lemma WinnersReady(cache: map<string, MemoryObject>, cands: seq<MemoryObject>, requireVisual: bool, topK: int, now: Timestamp)
    requires DistinctBy(IdOf, cands)
    requires forall c :: c in cands ==> c.entityId in cache && cache[c.entityId] == c
    ensures var winners := Memories(Ranked(cands, requireVisual, topK));
      var scored := TouchEach(cache, cands, LookupsPerCandidate, now);
      && DistinctBy(IdOf, winners)
      && forall w :: w in winners ==> w.entityId in scored && scored[w.entityId] == TouchedTimes(w, LookupsPerCandidate, now)
  {
    var kept := Ranked(cands, requireVisual, topK);
    var winners := Memories(kept);
    RankedFromCandidates(cands, requireVisual, topK);
    TouchEachCounts(cache, cands, LookupsPerCandidate, now);
    forall w | w in winners
      ensures w.entityId in cache && TouchEach(cache, cands, LookupsPerCandidate, now)[w.entityId] == TouchedTimes(w, LookupsPerCandidate, now)
    {
      var j :| 0 <= j < |winners| && winners[j] == w;
      assert kept[j] in kept;
      DistinctUses(cands, w.entityId, LookupsPerCandidate);
    }
    forall i, j | 0 <= i < j < |winners|
      ensures IdOf(winners[i]) != IdOf(winners[j])
    {
      assert ScoredId(kept[i]) != ScoredId(kept[j]);
    }
  }

  /** Reinforcing memories that have been looked up twice leaves each with four more uses. */
  lemma ReinforcedWinners(cache: map<string, MemoryObject>, winners: seq<MemoryObject>, now: Timestamp)
    requires forall w :: w in winners ==> w.entityId in cache && cache[w.entityId] == TouchedTimes(w, LookupsPerCandidate, now)
    ensures forall j :: 0 <= j < |winners| ==>
      Reinforced(cache, winners, now)[j] == TouchedTimes(winners[j], LookupsPerCandidate + ReinforceUses, now)
  {
    forall j | 0 <= j < |winners|
      ensures Reinforced(cache, winners, now)[j] == TouchedTimes(winners[j], LookupsPerCandidate + ReinforceUses, now)
    {
      assert winners[j] in winners;
      TouchesAddUp(winners[j], LookupsPerCandidate, ReinforceUses, now);
    }
  }

  /**
   * The uses `retrieve` leaves behind, memory by memory: two for each
   * candidate, two more for each memory returned, none for the rest.
   */
  lemma RetrieveUses(cache: map<string, MemoryObject>, cands: seq<MemoryObject>, requireVisual: bool, topK: int, now: Timestamp)
    requires DistinctBy(IdOf, cands)
    requires forall c :: c in cands ==> c.entityId in cache && cache[c.entityId] == c
    ensures var winners := Memories(Ranked(cands, requireVisual, topK));
      var after := TouchEach(TouchEach(cache, cands, LookupsPerCandidate, now), winners, ReinforceUses, now);
      && after.Keys == cache.Keys
      && forall id :: id in cache ==>
        after[id] == TouchedTimes(cache[id],
          (if HasId(cands, id) then LookupsPerCandidate else 0) + (if HasId(winners, id) then ReinforceUses else 0), now)
  {
    var winners := Memories(Ranked(cands, requireVisual, topK));
    var scored := TouchEach(cache, cands, LookupsPerCandidate, now);
    var after := TouchEach(scored, winners, ReinforceUses, now);
    WinnersReady(cache, cands, requireVisual, topK, now);
    TouchEachCounts(cache, cands, LookupsPerCandidate, now);
    TouchEachCounts(scored, winners, ReinforceUses, now);
    forall id | id in cache
      ensures after[id] == TouchedTimes(cache[id],
        (if HasId(cands, id) then LookupsPerCandidate else 0) + (if HasId(winners, id) then ReinforceUses else 0), now)
    {
      var a := Uses(cands, id, LookupsPerCandidate);
      var b := Uses(winners, id, ReinforceUses);
      DistinctUses(cands, id, LookupsPerCandidate);
      DistinctUses(winners, id, ReinforceUses);
      assert scored[id] == TouchedTimes(cache[id], a, now);
      assert after[id] == TouchedTimes(scored[id], b, now);
      TouchesAddUp(cache[id], a, b, now);
    }
  }

  class MemoryMerger {
    const manager: MemoryManager
    const structured: StructuredMemory
    const semantic: SemanticMemory
    const visual: VisualMemory

    /** All layers work on this merger's manager. */
    predicate Wired()
    {
      structured.manager == manager && semantic.manager == manager && visual.manager == manager
    }

    constructor (manager: MemoryManager, structured: StructuredMemory, semantic: SemanticMemory, visual: VisualMemory)
      requires structured.manager == manager && semantic.manager == manager && visual.manager == manager
      ensures this.manager == manager && this.structured == structured
      ensures this.semantic == semantic && this.visual == visual
      ensures Wired()
    {
      this.manager := manager;
      this.structured := structured;
      this.semantic := semantic;
      this.visual := visual;
    }

    /**
     * The body of the scoring loop of `retrieve` for one candidate: look it up
     * by `is_well_defined` and by `has_visual`, drop it when visuals are
     * required and missing, and otherwise score it with the usage it has after
     * those two lookups.
     */
    method Assess(c: MemoryObject, requireVisual: bool, now: Timestamp) returns (survives: bool, current: int)
      requires Wired() && manager.Valid()
      requires c.entityId in manager.memories && manager.memories[c.entityId] == c
      modifies manager`memories, manager`store
      ensures manager.Valid()
      ensures manager.memories == old(manager.memories)[c.entityId := TouchedTimes(c, LookupsPerCandidate, now)]
      ensures survives <==> !Dropped(c, requireVisual)
      ensures survives ==> current == ScoreOf(c, requireVisual)
    {
      TouchesAddUp(c, 1, 0, now);
      var wellDefined := structured.IsWellDefined(c.entityId, now);
      var hasVisual := visual.HasVisual(c.entityId, now);
      OverwriteTwice(old(manager.memories), c.entityId, c.Touch(now), c.Touch(now).Touch(now));
      if requireVisual && !hasVisual {
        return false, 0;
      }
      survives := true;
      current := AccumulateScore(wellDefined, requireVisual, hasVisual, manager.memories[c.entityId].usageCount);
    }

    /** The scoring loop of `retrieve`: the surviving candidates, in order, with their scores. */
    method ScoreCandidates(cands: seq<MemoryObject>, requireVisual: bool, now: Timestamp) returns (scored: seq<Scored>)
      requires Wired() && manager.Valid()
      requires DistinctBy(IdOf, cands)
      requires forall c :: c in cands ==> c.entityId in manager.memories && manager.memories[c.entityId] == c
      modifies manager`memories, manager`store
      ensures manager.Valid()
      ensures scored == ScoreAll(cands, requireVisual)
      ensures manager.memories == TouchEach(old(manager.memories), cands, LookupsPerCandidate, now)
    {
      ghost var cache0 := manager.memories;
      scored := [];
      var i := 0;
      while i < |cands|
        invariant 0 <= i <= |cands|
        invariant manager.Valid()
        invariant manager.memories == TouchEach(cache0, cands[..i], LookupsPerCandidate, now)
        invariant scored == ScoreAll(cands[..i], requireVisual)
      {
        var c := cands[i];
        assert c in cands;
        DistinctTurn(cache0, cands, i, LookupsPerCandidate, now);
        ScoreAllStep(cands, requireVisual, i);
        var survives, current := Assess(c, requireVisual, now);
        if !survives {
          i := i + 1;
          continue;
        }
        scored := scored + [Scored(c, current)];
        i := i + 1;
      }
      assert cands[..i] == cands;
    }

    /**
     * The reinforcement loop of `retrieve`: each kept memory gets
     * `usage_count += 1` and `touch()`, is saved, and is returned as it
     * then stands.
     */
    method Reinforce(winners: seq<MemoryObject>, now: Timestamp) returns (results: seq<MemoryObject>)
      requires manager.Valid()
      requires DistinctBy(IdOf, winners)
      requires forall w :: w in winners ==> w.entityId in manager.memories
      modifies manager`memories, manager`store
      ensures manager.Valid()
      ensures manager.memories == TouchEach(old(manager.memories), winners, ReinforceUses, now)
      ensures results == Reinforced(old(manager.memories), winners, now)
    {
      ghost var cache0 := manager.memories;
      results := [];
      var k := 0;
      while k < |winners|
        invariant 0 <= k <= |winners|
        invariant manager.Valid()
        invariant manager.memories == TouchEach(cache0, winners[..k], ReinforceUses, now)
        invariant results == Reinforced(cache0, winners[..k], now)
      {
        var id := winners[k].entityId;
        assert winners[k] in winners;
        DistinctTurn(cache0, winners, k, ReinforceUses, now);
        ReinforcedStep(cache0, winners, k, now);
        var m := manager.memories[id];
        ReinforceIsTwoUses(m, now);
        m := m.(usageCount := m.usageCount + 1).Touch(now);
        manager.WriteBack(m);
        results := results + [m];
        k := k + 1;
      }
      assert winners[..k] == winners;
    }

    /**
     * `retrieve`: the candidates of `naive_search`, scored, filtered, ranked
     * best first and cut to `top_k`. Every candidate has been used twice by
     * the scoring; each returned memory twice more, and it is returned as it
     * stands after that.
     */
    method Retrieve(query: string, requireVisual: bool, topK: int, now: Timestamp) returns (results: seq<MemoryObject>)
      requires Wired() && manager.Valid()
      modifies manager`memories, manager`store
      ensures manager.Valid()
      ensures var cands := Search(old(manager.ListAll()), Lower(query));
        var ranked := Ranked(cands, requireVisual, topK);
        && manager.memories == TouchEach(TouchEach(old(manager.memories), cands, LookupsPerCandidate, now), Memories(ranked), ReinforceUses, now)
        && |results| == |ranked|
        && forall j :: 0 <= j < |ranked| ==>
          results[j] == TouchedTimes(ranked[j].memory, LookupsPerCandidate + ReinforceUses, now)
    {
      ghost var cache0 := manager.memories;
      var cands := semantic.NaiveSearch(query);
      WinnersReady(cache0, cands, requireVisual, topK, now);
      var scored := ScoreCandidates(cands, requireVisual, now);
      scored := SortDesc(scored);
      var kept := Take(scored, topK);
      var winners := Memories(kept);
      ReinforcedWinners(manager.memories, winners, now);
      results := Reinforce(winners, now);
    }

    /**
     * One entry of `explain_logic`, without `last_seen`: the name and usage
     * are read first, then `has_visual` and `is_well_defined` each look the
     * candidate up.
     */
    method Describe(c: MemoryObject, now: Timestamp) returns (e: Explanation)
      requires Wired() && manager.Valid()
      requires c.entityId in manager.memories && manager.memories[c.entityId] == c
      modifies manager`memories, manager`store
      ensures manager.Valid()
      ensures manager.memories == old(manager.memories)[c.entityId := TouchedTimes(c, LookupsPerCandidate, now)]
      ensures e == ExplanationOf(c)
    {
      TouchesAddUp(c, 1, 0, now);
      var m := manager.memories[c.entityId];
      var name := m.structured.name;
      var usage := m.usageCount;
      var hasVisual := visual.HasVisual(c.entityId, now);
      var complete := structured.IsWellDefined(c.entityId, now);
      OverwriteTwice(old(manager.memories), c.entityId, c.Touch(now), c.Touch(now).Touch(now));
      e := Explanation(name, usage, hasVisual, complete);
    }

    /**
     * `explain_logic`: one entry per candidate of `naive_search`, in order,
     * with no filtering and no cut; each candidate is used twice.
     */
    method ExplainLogic(query: string, now: Timestamp) returns (report: seq<Explanation>)
      requires Wired() && manager.Valid()
      modifies manager`memories, manager`store
      ensures manager.Valid()
      ensures var cands := Search(old(manager.ListAll()), Lower(query));
        && report == Explain(cands)
        && manager.memories == TouchEach(old(manager.memories), cands, LookupsPerCandidate, now)
    {
      ghost var cache0 := manager.memories;
      var cands := semantic.NaiveSearch(query);
      report := [];
      var i := 0;
      while i < |cands|
        invariant 0 <= i <= |cands|
        invariant manager.Valid()
        invariant manager.memories == TouchEach(cache0, cands[..i], LookupsPerCandidate, now)
        invariant report == Explain(cands[..i])
      {
        var c := cands[i];
        assert c in cands;
        DistinctTurn(cache0, cands, i, LookupsPerCandidate, now);
        ExplainStep(cands, i);
        var e := Describe(c, now);
        report := report + [e];
        i := i + 1;
      }
      assert cands[..i] == cands;
    }
  }
}
