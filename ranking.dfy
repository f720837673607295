/**
 * The decision rule of `MemoryMerger.retrieve`, as values: each candidate's
 * score (exact, in hundredths), the visual filter, Python's stable
 * descending `list.sort` and the `[:top_k]` slice.
 */
module Ranking {
  import opened Lists
  import opened Schema
  import opened Store
  import opened StructuredLayer

  /** The score every candidate starts from (0.5). */
  const BaseScore: int := 50
  /** `BONUS_WELL_DEFINED` (0.2). */
  const WellDefinedBonus: int := 20
  /** `PENALTY_INCOMPLETE` (0.3). */
  const IncompletePenalty: int := 30
  /** `BONUS_VISUAL_MATCH` (0.2): visuals are required and present. */
  const VisualMatchBonus: int := 20
  /** The 0.05 for visuals present though not required. */
  const VisualPresentBonus: int := 5
  /** `BONUS_USAGE_MAX` (0.1); each use is worth 0.01. */
  const UsageBonusMax: int := 10
  /** Lookups a candidate goes through while scored: `is_well_defined` and `has_visual`. */
  const LookupsPerCandidate: nat := 2
  /** Uses a returned memory gains: `usage_count += 1` and then `touch()`. */
  const ReinforceUses: nat := 2

  /** `min(usage_count * 0.01, BONUS_USAGE_MAX)` in hundredths. */
  function UsageBonus(usage: nat): (b: nat)
    ensures b <= UsageBonusMax && b <= usage
    ensures usage <= UsageBonusMax ==> b == usage
    ensures UsageBonusMax <= usage ==> b == UsageBonusMax
  {
    if usage < UsageBonusMax then usage else UsageBonusMax
  }

  /**
   * The score of a candidate that survived the visual filter, in hundredths.
   * Every well-defined candidate scores above every incomplete one.
   */
  function Score(wellDefined: bool, requireVisual: bool, hasVisual: bool, usage: nat): (s: int)
    ensures wellDefined ==> 70 <= s <= 100
    ensures !wellDefined ==> 20 <= s <= 50
  {
    BaseScore
      + (if wellDefined then WellDefinedBonus else -IncompletePenalty)
      + (if requireVisual then VisualMatchBonus else if hasVisual then VisualPresentBonus else 0)
      + UsageBonus(usage)
  }

  /** More use never lowers a score, and past the cap it no longer raises it. */
  lemma ScoreMonotoneInUsage(wellDefined: bool, requireVisual: bool, hasVisual: bool, u: nat, v: nat)
    requires u <= v
    ensures Score(wellDefined, requireVisual, hasVisual, u) <= Score(wellDefined, requireVisual, hasVisual, v)
    ensures UsageBonusMax <= u ==> Score(wellDefined, requireVisual, hasVisual, u) == Score(wellDefined, requireVisual, hasVisual, v)
  {
  }

  /** A candidate paired with its score. */
  datatype Scored = Scored(memory: MemoryObject, score: int)

  function ScoredId(x: Scored): string
  {
    x.memory.entityId
  }

  /** Whether the visual filter drops a candidate: visuals are required and it has none. */
  predicate Dropped(c: MemoryObject, requireVisual: bool)
  {
    requireVisual && |c.visuals| == 0
  }

  /**
   * The score of a candidate as found by the search. The usage counted is the
   * candidate's own plus the lookups it has just gone through, since the
   * candidate is the cached object itself.
   */
  function ScoreOf(c: MemoryObject, requireVisual: bool): int
  {
    Score(WellDefined(c), requireVisual, |c.visuals| > 0, c.usageCount + LookupsPerCandidate)
  }

  /** The scoring loop of `retrieve`: the surviving candidates, in order, with their scores. */
  function ScoreAll(cands: seq<MemoryObject>, requireVisual: bool): (r: seq<Scored>)
    ensures |r| <= |cands|
    ensures forall x :: x in r <==> x.memory in cands && !Dropped(x.memory, requireVisual) && x.score == ScoreOf(x.memory, requireVisual)
    decreases |cands|
  {
    if cands == [] then []
    else
      var c := cands[|cands| - 1];
      ScoreAll(cands[..|cands| - 1], requireVisual) + if Dropped(c, requireVisual) then [] else [Scored(c, ScoreOf(c, requireVisual))]
  }

  /** One more candidate: the step the scoring loop takes at position `i`. */
  lemma ScoreAllStep(cands: seq<MemoryObject>, requireVisual: bool, i: nat)
    requires i < |cands|
    ensures var step := if Dropped(cands[i], requireVisual) then [] else [Scored(cands[i], ScoreOf(cands[i], requireVisual))];
      ScoreAll(cands[..i + 1], requireVisual) == ScoreAll(cands[..i], requireVisual) + step
  {
    TakeOneMore(cands, i);
  }

  /** Distinct candidates give distinct scored entries. */
  lemma {:induction false} ScoreAllDistinct(cands: seq<MemoryObject>, requireVisual: bool)
    requires DistinctBy(IdOf, cands)
    ensures DistinctBy(ScoredId, ScoreAll(cands, requireVisual))
    decreases |cands|
  {
    if cands != [] {
      var cs := cands[..|cands| - 1];
      var c := cands[|cands| - 1];
      assert DistinctBy(IdOf, cs);
      ScoreAllDistinct(cs, requireVisual);
      forall x | x in ScoreAll(cs, requireVisual)
        ensures ScoredId(x) != c.entityId
      {
        var i :| 0 <= i < |cs| && cs[i] == x.memory;
        assert IdOf(cands[i]) != IdOf(c);
      }
    }
  }

  /** Non-increasing scores. */
  predicate SortedDesc(s: seq<Scored>)
  {
    forall i, j :: 0 <= i < j < |s| ==> s[i].score >= s[j].score
  }

  /** The entries with score `v`, in order. */
  function WithScore(s: seq<Scored>, v: int): seq<Scored>
  {
    if s == [] then [] else (if s[0].score == v then [s[0]] else []) + WithScore(s[1..], v)
  }

  /** Put `x` before the first entry that does not score above it. */
  function Insert(x: Scored, s: seq<Scored>): (r: seq<Scored>)
    ensures |r| == |s| + 1
    ensures forall y :: y in r <==> y == x || y in s
  {
    if s == [] || x.score >= s[0].score then [x] + s
    else
      assert forall y :: y in s <==> y == s[0] || y in s[1..];
      [s[0]] + Insert(x, s[1..])
  }

  /** Inserting into a sorted list keeps it sorted. */
  lemma {:induction false} InsertSorted(x: Scored, s: seq<Scored>)
    requires SortedDesc(s)
    ensures SortedDesc(Insert(x, s))
    decreases |s|
  {
    if s != [] && x.score < s[0].score {
      var t := s[1..];
      assert SortedDesc(t);
      InsertSorted(x, t);
      var r := Insert(x, s);
      forall j | 1 <= j < |r|
        ensures r[0].score >= r[j].score
      {
        assert r[j] in Insert(x, t);
      }
    }
  }

  /** Inserting adds `x` and nothing else. */
  lemma {:induction false} InsertPermutes(x: Scored, s: seq<Scored>)
    ensures multiset(Insert(x, s)) == multiset(s) + multiset{x}
    decreases |s|
  {
    if s != [] && x.score < s[0].score {
      InsertPermutes(x, s[1..]);
      assert s == [s[0]] + s[1..];
    }
  }

  /** Inserting `x` puts it ahead of every entry with its score, and keeps the others' order. */
  lemma {:induction false} InsertWithScore(x: Scored, s: seq<Scored>, v: int)
    ensures WithScore(Insert(x, s), v) == (if x.score == v then [x] else []) + WithScore(s, v)
    decreases |s|
  {
    if s == [] || x.score >= s[0].score {
      assert ([x] + s)[0] == x && ([x] + s)[1..] == s;
    } else {
      var t := Insert(x, s[1..]);
      var rest := WithScore(s[1..], v);
      InsertWithScore(x, s[1..], v);
      assert ([s[0]] + t)[0] == s[0] && ([s[0]] + t)[1..] == t;
      assert WithScore(s, v) == (if s[0].score == v then [s[0]] else []) + rest;
      if x.score == v {
        assert WithScore(Insert(x, s), v) == [x] + rest;
      } else {
        assert WithScore(t, v) == rest;
      }
    }
  }

  /** Python's `sort(key=score, reverse=True)`: stable, highest score first. */
  function SortDesc(s: seq<Scored>): (r: seq<Scored>)
    ensures |r| == |s|
    ensures forall y :: y in r <==> y in s
    ensures SortedDesc(r)
  {
    if s == [] then [] else
      assert forall y :: y in s <==> y == s[0] || y in s[1..];
      InsertSorted(s[0], SortDesc(s[1..]));
      Insert(s[0], SortDesc(s[1..]))
  }

  /** The sort is a permutation. */
  lemma {:induction false} SortDescPermutes(s: seq<Scored>)
    ensures multiset(SortDesc(s)) == multiset(s)
    decreases |s|
  {
    if s != [] {
      SortDescPermutes(s[1..]);
      InsertPermutes(s[0], SortDesc(s[1..]));
      assert s == [s[0]] + s[1..];
    }
  }

  /** The sort is stable: entries with equal scores keep their relative order. */
  lemma {:induction false} SortDescStable(s: seq<Scored>, v: int)
    ensures WithScore(SortDesc(s), v) == WithScore(s, v)
    decreases |s|
  {
    if s != [] {
      SortDescStable(s[1..], v);
      InsertWithScore(s[0], SortDesc(s[1..]), v);
    }
  }

  /** Sorting keeps distinct entries distinct. */
  lemma {:induction false} SortDescDistinct(s: seq<Scored>)
    requires DistinctBy(ScoredId, s)
    ensures DistinctBy(ScoredId, SortDesc(s))
    decreases |s|
  {
    if s != [] {
      var t := s[1..];
      assert DistinctBy(ScoredId, t);
      SortDescDistinct(t);
      forall y | y in SortDesc(t)
        ensures ScoredId(y) != ScoredId(s[0])
      {
        var i :| 0 <= i < |t| && t[i] == y;
        assert s[i + 1] == y;
      }
      InsertDistinct(s[0], SortDesc(t));
    }
  }

  lemma {:induction false} InsertDistinct(x: Scored, s: seq<Scored>)
    requires DistinctBy(ScoredId, s)
    requires forall y :: y in s ==> ScoredId(y) != ScoredId(x)
    ensures DistinctBy(ScoredId, Insert(x, s))
    decreases |s|
  {
    if s != [] && x.score < s[0].score {
      var t := s[1..];
      assert DistinctBy(ScoredId, t);
      InsertDistinct(x, t);
      var r := Insert(x, t);
      forall y | y in r
        ensures ScoredId(y) != ScoredId(s[0])
      {
        if y != x {
          var i :| 0 <= i < |t| && t[i] == y;
          assert s[i + 1] == y;
        }
      }
    }
  }

  /** Python's `s[:k]`: a negative `k` counts from the end. */
  function Take<T>(s: seq<T>, k: int): (r: seq<T>)
    ensures 0 <= k ==> |r| == if k < |s| then k else |s|
    ensures k < 0 ==> |r| == if -k < |s| then |s| + k else 0
    ensures r == s[..|r|]
  {
    var n := if 0 <= k then (if k < |s| then k else |s|) else (if -k < |s| then |s| + k else 0);
    s[..n]
  }

  /** What `retrieve` ranks and keeps: the scored survivors, best first, cut to `top_k`. */
  function Ranked(cands: seq<MemoryObject>, requireVisual: bool, topK: int): seq<Scored>
  {
    Take(SortDesc(ScoreAll(cands, requireVisual)), topK)
  }

  /** The memories of scored entries, in order. */
  function Memories(s: seq<Scored>): (r: seq<MemoryObject>)
    ensures |r| == |s| && forall i :: 0 <= i < |s| ==> r[i] == s[i].memory
  {
    seq(|s|, i requires 0 <= i < |s| => s[i].memory)
  }

  /**
   * Every returned entry is a surviving candidate with its score, and no
   * candidate is returned twice.
   */
  lemma RankedFromCandidates(cands: seq<MemoryObject>, requireVisual: bool, topK: int)
    requires DistinctBy(IdOf, cands)
    ensures var r := Ranked(cands, requireVisual, topK);
      && DistinctBy(ScoredId, r)
      && forall x :: x in r ==> x.memory in cands && !Dropped(x.memory, requireVisual) && x.score == ScoreOf(x.memory, requireVisual)
  {
    var all := ScoreAll(cands, requireVisual);
    var sorted := SortDesc(all);
    var r := Ranked(cands, requireVisual, topK);
    ScoreAllDistinct(cands, requireVisual);
    SortDescDistinct(all);
    assert forall x :: x in r ==> x in sorted;
  }

  /** In a sorted list, nothing outside a prefix scores above anything inside it. */
  lemma PrefixIsTop(sorted: seq<Scored>, n: nat, x: Scored, y: Scored)
    requires SortedDesc(sorted) && n <= |sorted|
    requires x in sorted[..n] && y in sorted && y !in sorted[..n]
    ensures x.score >= y.score
  {
    var i :| 0 <= i < n && sorted[..n][i] == x;
    var j :| 0 <= j < |sorted| && sorted[j] == y;
    assert forall k :: 0 <= k < n ==> sorted[..n][k] == sorted[k];
    assert sorted[i] == x;
  }

  /**
   * Best first: the results are in non-increasing score order, and no
   * survivor left out scores above one returned.
   */
  lemma RankedBestFirst(cands: seq<MemoryObject>, requireVisual: bool, topK: int)
    ensures var r := Ranked(cands, requireVisual, topK);
      && SortedDesc(r)
      && forall x, y :: x in r && y in ScoreAll(cands, requireVisual) && y !in r ==> x.score >= y.score
  {
    var all := ScoreAll(cands, requireVisual);
    var sorted := SortDesc(all);
    var r := Ranked(cands, requireVisual, topK);
    forall x, y | x in r && y in all && y !in r
      ensures x.score >= y.score
    {
      PrefixIsTop(sorted, |r|, x, y);
    }
  }

  /** With visuals required, every returned memory has one. */
  lemma RankedHaveVisuals(cands: seq<MemoryObject>, topK: int)
    ensures forall x :: x in Ranked(cands, true, topK) ==> |x.memory.visuals| > 0
  {
    var all := ScoreAll(cands, true);
    var sorted := SortDesc(all);
    forall x | x in Ranked(cands, true, topK)
      ensures |x.memory.visuals| > 0
    {
      assert x in sorted;
    }
  }

  /**
   * As many results as asked for, or all survivors when there are fewer;
   * no candidates, no results.
   */
  lemma RankedLength(cands: seq<MemoryObject>, requireVisual: bool, topK: int)
    ensures var n := |ScoreAll(cands, requireVisual)|;
      0 <= topK ==> |Ranked(cands, requireVisual, topK)| == if topK < n then topK else n
    ensures cands == [] ==> Ranked(cands, requireVisual, topK) == []
  {
  }

  /** Among results with equal scores, candidates come in the order the search found them. */
  lemma RankedKeepsTies(cands: seq<MemoryObject>, requireVisual: bool, topK: int, v: int)
    ensures var r := Ranked(cands, requireVisual, topK);
      var tied := WithScore(ScoreAll(cands, requireVisual), v);
      |WithScore(r, v)| <= |tied| && WithScore(r, v) == tied[..|WithScore(r, v)|]
  {
    var sorted := SortDesc(ScoreAll(cands, requireVisual));
    var r := Ranked(cands, requireVisual, topK);
    SortDescStable(ScoreAll(cands, requireVisual), v);
    WithScorePrefix(sorted, |r|, v);
  }

  /** The entries with score `v` among a prefix are a prefix of those of the whole. */
  lemma {:induction false} WithScorePrefix(s: seq<Scored>, n: nat, v: int)
    requires n <= |s|
    ensures |WithScore(s[..n], v)| <= |WithScore(s, v)|
    ensures WithScore(s[..n], v) == WithScore(s, v)[..|WithScore(s[..n], v)|]
    decreases n
  {
    if n > 0 {
      assert s[..n][1..] == s[1..][..n - 1];
      WithScorePrefix(s[1..], n - 1, v);
    }
  }

  /** One `explain_logic` entry (without `last_seen`). */
  datatype Explanation = Explanation(name: string, totalUsage: nat, hasVisual: bool, isComplete: bool)

  /**
   * The entry for a candidate as found by the search: its usage is read before
   * the two lookups of the entry touch it.
   */
  function ExplanationOf(c: MemoryObject): Explanation
  {
    Explanation(c.structured.name, c.usageCount, |c.visuals| > 0, WellDefined(c))
  }

  /** `explain_logic`'s report: one entry per candidate, in candidate order. */
  function Explain(cands: seq<MemoryObject>): (r: seq<Explanation>)
    ensures |r| == |cands| && forall i :: 0 <= i < |cands| ==> r[i] == ExplanationOf(cands[i])
  {
    seq(|cands|, i requires 0 <= i < |cands| => ExplanationOf(cands[i]))
  }

  /** One more candidate: the step the report loop takes at position `i`. */
  lemma ExplainStep(cands: seq<MemoryObject>, i: nat)
    requires i < |cands|
    ensures Explain(cands[..i + 1]) == Explain(cands[..i]) + [ExplanationOf(cands[i])]
  {
  }
}
