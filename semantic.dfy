/**
 * `SemanticMemory`: the phrases a memory is known by, kept in its semantic
 * record, and the substring search over them. Writes reach the object
 * through `MemoryManager.get` (so a found object is touched once) and go
 * back with `save_memory`; the search reads `list_all` and touches nothing.
 */
module SemanticLayer {
  import opened Wrappers
  import opened Lists
  import opened Strings
  import opened Schema
  import opened Store

  /** Python's truthiness of an optional string: `None` and `""` are both false. */
  predicate GivenHint(hint: Option<string>)
  {
    hint.Some? && |hint.value| > 0
  }

  /** Whether the language hint would be appended: given and not yet present. */
  predicate HintNew(s: Semantic, hint: Option<string>)
  {
    GivenHint(hint) && hint.value !in s.languageHints
  }

  /**
   * The record after `add_texts` (and, with one text, `add_text`) before the
   * time stamp: each text not yet present is appended in order, and a given
   * language hint is appended unless already present.
   */
  function WithTexts(s: Semantic, texts: seq<string>, hint: Option<string>): (r: Semantic)
    ensures |s.texts| <= |r.texts| && r.texts[..|s.texts|] == s.texts
    ensures forall t :: t in r.texts <==> t in s.texts || t in texts
    ensures NoDup(s.texts) ==> NoDup(r.texts)
    ensures r.languageHints == if HintNew(s, hint) then s.languageHints + [hint.value] else s.languageHints
    ensures r.base == s.base
  {
    var hints := if HintNew(s, hint) then s.languageHints + [hint.value] else s.languageHints;
    s.(texts := AppendAbsent(s.texts, texts), languageHints := hints)
  }

  /** Whether `add_texts` has anything to append. */
  predicate TextsNew(s: Semantic, texts: seq<string>, hint: Option<string>)
  {
    (exists t :: t in texts && t !in s.texts) || HintNew(s, hint)
  }

  /** `WithTexts` changes the record exactly when there is something new. */
  lemma WithTextsChanges(s: Semantic, texts: seq<string>, hint: Option<string>)
    ensures WithTexts(s, texts, hint) != s <==> TextsNew(s, texts, hint)
  {
    var r := WithTexts(s, texts, hint);
    AppendAbsentGrows(s.texts, texts);
    if HintNew(s, hint) {
      assert |r.languageHints| > |s.languageHints|;
    }
    if !TextsNew(s, texts, hint) {
      AppendAbsentPresent(s.texts, texts);
    }
  }

  /** Adding the same texts and hint again changes nothing. */
  lemma WithTextsIdempotent(s: Semantic, texts: seq<string>, hint: Option<string>)
    ensures var once := WithTexts(s, texts, hint);
      WithTexts(once, texts, hint) == once && !TextsNew(once, texts, hint)
  {
    AppendAbsentIdempotent(s.texts, texts);
  }

  /**
   * `query in text.lower()` for some text of the object, with the query
   * already lower-cased: the test `naive_search` applies to each object.
   */
  predicate Mentions(m: MemoryObject, query: string)
  {
    exists t :: t in m.semantic.texts && Contains(Lower(t), query)
  }

  /** The objects of `ms`, in order, that mention `query`. */
  function Search(ms: seq<MemoryObject>, query: string): (r: seq<MemoryObject>)
    ensures |r| <= |ms|
    ensures forall m :: m in r <==> m in ms && Mentions(m, query)
    decreases |ms|
  {
    if ms == [] then []
    else
      var last := ms[|ms| - 1];
      Search(ms[..|ms| - 1], query) + if Mentions(last, query) then [last] else []
  }

  /** One more object: the step the search loop takes at position `i`. */
  lemma SearchStep(ms: seq<MemoryObject>, query: string, i: nat)
    requires i < |ms|
    ensures Search(ms[..i + 1], query) == Search(ms[..i], query) + if Mentions(ms[i], query) then [ms[i]] else []
  {
    TakeOneMore(ms, i);
  }

  /** Searching keeps objects apart that were apart: no object is reported twice. */
  lemma {:induction false} SearchDistinct(ms: seq<MemoryObject>, query: string)
    requires DistinctBy(IdOf, ms)
    ensures DistinctBy(IdOf, Search(ms, query))
    decreases |ms|
  {
    if ms != [] {
      var ms' := ms[..|ms| - 1];
      var last := ms[|ms| - 1];
      assert DistinctBy(IdOf, ms');
      SearchDistinct(ms', query);
      forall x | x in Search(ms', query)
        ensures IdOf(x) != IdOf(last)
      {
        var i :| 0 <= i < |ms'| && ms'[i] == x;
        assert ms[i] == x;
      }
    }
  }

  /** The empty query finds exactly the objects with at least one text. */
  lemma EmptyQueryFindsAnyText(m: MemoryObject)
    ensures Mentions(m, "") <==> |m.semantic.texts| > 0
  {
    if |m.semantic.texts| > 0 {
      EmptyOccursEverywhere(Lower(m.semantic.texts[0]));
    }
  }

  /** After a text is added, searching for that text finds the object, whatever its case. */
  lemma FoundAfterAdd(m: MemoryObject, texts: seq<string>, hint: Option<string>, text: string, now: Timestamp)
    requires text in texts
    ensures Mentions(m.(semantic := WithTexts(m.semantic, texts, hint).(base := m.semantic.base.Touch(now))), Lower(text))
  {
    ContainsBounds(Lower(text), Lower(text));
  }

  /**
   * The inner loop of `naive_search`: scan the texts until one contains the
   * query, and stop there.
   */
  method AnyContains(texts: seq<string>, query: string) returns (found: bool)
    ensures found <==> exists t :: t in texts && Contains(Lower(t), query)
  {
    found := false;
    var j := 0;
    while j < |texts|
      invariant 0 <= j <= |texts|
      invariant forall k :: 0 <= k < j ==> !Contains(Lower(texts[k]), query)
    {
      if Contains(Lower(texts[j]), query) {
        found := true;
        break;
      }
      j := j + 1;
    }
  }

  class SemanticMemory {
    const manager: MemoryManager

    constructor (manager: MemoryManager)
      ensures this.manager == manager
    {
      this.manager := manager;
    }

    /**
     * `add_text`: append the text unless present, append a given language
     * hint unless present, and touch and save the record in every case.
     */
    method AddText(id: string, text: string, hint: Option<string>, now: Timestamp) returns (found: bool)
      requires manager.Valid()
      modifies manager`memories, manager`store
      ensures manager.Valid()
      ensures found <==> id in old(manager.memories)
      ensures !found ==> manager.memories == old(manager.memories)
      ensures found ==>
        var m := old(manager.memories)[id].Touch(now);
        manager.memories == old(manager.memories)[id :=
          m.(semantic := WithTexts(m.semantic, [text], hint).(base := m.semantic.base.Touch(now)))]
    {
      var r := manager.Get(id, now);
      if r.None? {
        return false;
      }
      var m := r.value;
      var s := m.semantic;
      if text !in s.texts {
        s := s.(texts := s.texts + [text]);
      }
      if GivenHint(hint) && hint.value !in s.languageHints {
        s := s.(languageHints := s.languageHints + [hint.value]);
      }
      s := s.(base := s.base.Touch(now));
      assert s == WithTexts(m.semantic, [text], hint).(base := m.semantic.base.Touch(now)) by {
        AppendAbsentStep(m.semantic.texts, [text], 0);
      }
      var m' := m.(semantic := s);
      OverwriteTwice(old(manager.memories), id, m, m');
      manager.WriteBack(m');
      found := true;
    }

    /**
     * `add_texts`: append each text not yet present, in order, and a given
     * language hint unless present; touch and save only when something was
     * appended. `texts` is a list: `add_texts` with `None` is not modelled.
     */
    method AddTexts(id: string, texts: seq<string>, hint: Option<string>, now: Timestamp) returns (changed: bool)
      requires manager.Valid()
      modifies manager`memories, manager`store
      ensures manager.Valid()
      ensures changed <==> id in old(manager.memories) && TextsNew(old(manager.memories)[id].semantic, texts, hint)
      ensures id !in old(manager.memories) ==> manager.memories == old(manager.memories)
      ensures id in old(manager.memories) ==>
        var m := old(manager.memories)[id].Touch(now);
        manager.memories == old(manager.memories)[id :=
          if changed then m.(semantic := WithTexts(m.semantic, texts, hint).(base := m.semantic.base.Touch(now))) else m]
    {
      var r := manager.Get(id, now);
      if r.None? {
        return false;
      }
      var m := r.value;
      var s := m.semantic;
      var ts, newText := AppendMissing(s.texts, texts);
      var newHint := GivenHint(hint) && hint.value !in s.languageHints;
      changed := newText || newHint;
      if changed {
        s := s.(texts := ts);
        if newHint {
          s := s.(languageHints := s.languageHints + [hint.value]);
        }
        s := s.(base := s.base.Touch(now));
        var m' := m.(semantic := s);
        OverwriteTwice(old(manager.memories), id, m, m');
        manager.WriteBack(m');
      }
    }

    /** `get_texts`: the texts of a found object (touched by the lookup), else none. */
    method GetTexts(id: string, now: Timestamp) returns (texts: seq<string>)
      requires manager.Valid()
      modifies manager`memories, manager`store
      ensures manager.Valid()
      ensures id !in old(manager.memories) ==> texts == [] && manager.memories == old(manager.memories)
      ensures id in old(manager.memories) ==>
        && texts == old(manager.memories)[id].semantic.texts
        && manager.memories == old(manager.memories)[id := old(manager.memories)[id].Touch(now)]
    {
      var r := manager.Get(id, now);
      if r.None? {
        return [];
      }
      texts := r.value.semantic.texts;
    }

    /**
     * `naive_search`: every cached object, in cache order, with a text that
     * contains the lower-cased query once lower-cased itself; each at most
     * once. Nothing is touched.
     */
    method NaiveSearch(query: string) returns (results: seq<MemoryObject>)
      requires manager.Valid()
      ensures results == Search(manager.ListAll(), Lower(query))
      ensures forall m :: m in results <==> m.entityId in manager.memories && manager.memories[m.entityId] == m && Mentions(m, Lower(query))
      ensures DistinctBy(IdOf, results)
    {
      var q := Lower(query);
      var all := manager.ListAll();
      results := [];
      var i := 0;
      while i < |all|
        invariant 0 <= i <= |all|
        invariant results == Search(all[..i], q)
      {
        SearchStep(all, q, i);
        var hit := AnyContains(all[i].semantic.texts, q);
        if hit {
          results := results + [all[i]];
        }
        i := i + 1;
      }
      assert all[..i] == all;
      SearchDistinct(all, q);
    }
  }
}
