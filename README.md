# Memorize memory core, modelled in Dafny

Memorize keeps what an assistant knows about things ("memories") as
`MemoryObject`s. Each object has one identity shared by three records:

- a **structured** record says what the thing is (name, type, function, description, aliases, constraints);
- a **semantic** record holds the phrases it is known by;
- **visual** records hold bounding boxes on images.

`MemoryManager` is the single source of truth. It keeps a RAM cache of the
objects, in agreement with a durable table, plus an index from lower-cased
names to identities. Every lookup through `get` is a *use*: it bumps the
object's usage count and re-saves it. Three accessor layers (`StructuredMemory`,
`SemanticMemory`, `VisualMemory`) read and change objects only through the
manager. `MemoryMerger.retrieve` searches, scores, filters, ranks and
reinforces candidates; `explain_logic` reports what the scoring sees.

The model, module by module:

- `Schema` (`schema.dfy`): the records as datatypes, the id factory with the uuid as a parameter, and the `touch` helpers.
- `Store` (`store.dfy`): class `MemoryManager`. Its fields are the cache (a map), the cache's insertion order, the name index, and the durable table (a map). `Valid()` says that cache, order and index fit together and that the table equals the cache.
- `StructuredLayer`, `SemanticLayer`, `VisualLayer`: one class per accessor, on a shared manager. Each also has pure functions that say what an operation does to a record. Their lemmas prove idempotence, no duplicates, and read-after-write.
- `Ranking`: the decision rule of `retrieve` as values:
  - the score, in exact hundredths;
  - the visual filter;
  - Python's stable descending `list.sort` as an insertion sort;
  - the `[:top_k]` slice.

  The lemmas prove the order is best first, the sort is a permutation and stable, there are no duplicates, and the lengths are right.
- `Merger`: class `MemoryMerger` with `retrieve` and `explain_logic`. The
  methods are proved against `Ranking`. The lemmas also account for every
  use the merger causes: two for each candidate, two more for each
  returned memory.
- `Wrappers`, `Lists`, `Strings`: `Option`, list helpers (append-if-absent, `list.remove`), ASCII lower-casing and Python's substring test.

The clock (`utcnow()`) is a `now: Timestamp` parameter of every operation; one
operation runs at one instant. The uuid of `generate_id` is a parameter, too.

## Model

| member | source | states |
|---|---|---|
| Schema.Base.Touch | memory/memory_schema.py:40-42 | a sub-record's touch records the time and changes nothing else |
| Schema.MemoryObject.Touch | memory/memory_schema.py:186-189 | a use adds one to the usage count and records the access time; records and identity are unchanged |
| Schema.TouchesAddUp | memory/memory_schema.py:186-189 | uses at the same instant add up: a touch is one use, and `a` uses then `b` uses are `a + b` uses |
| Schema.GenerateId | memory/memory_schema.py:11-15 | the id is the prefix, `_`, then 12 hex digits, and is exactly 13 characters longer than the prefix |
| Schema.GenerateIdCollides | memory/memory_schema.py:11-15 | two uuids give the same id exactly when their first 12 hex digits agree |
| Schema.Create | memory/memory_schema.py:130-162 | the object and both records share the fresh id; name, type, device, domain and source are as given; everything else starts empty, with zero uses |
| Schema.AddVisual | memory/memory_schema.py:166-184 | appends one image-sourced visual carrying the object's id and the given box, angle and confidence; earlier visuals and all other fields are kept |
| Store.RegisterKeepsCache | memory/memory_manager.py:128-131 | registering a new identity keeps cache, insertion order and name index in agreement |
| Store.ReplaceKeepsCache | memory/memory_manager.py:179-184 | replacing a cached object by one with the same identity and name keeps the agreement |
| Store.RemoveKeepsCache | memory/memory_manager.py:190-202 | dropping an identity from cache, order and its name bucket keeps the agreement |
| Store.BucketHoldsName | memory/memory_manager.py:186-188 | a name bucket holds, once each, exactly the cached identities whose lower-cased name is its key |
| Store.TouchEachCounts | memory/memory_manager.py:179-184 | after a sequence of lookups, each cached object has been used `times` times per lookup of its identity; other objects are untouched |
| Store.DistinctUses | memory/memory_manager.py:179-184 | among distinct objects, an identity that occurs is looked up exactly once |
| Store.MemoryManager.constructor | memory/memory_manager.py:30-40 | starting on an existing table gives a valid manager whose cache equals the table |
| Store.MemoryManager.LoadFromDb | memory/memory_manager.py:84-122 | rebuilding from the stored rows gives a cache equal to the table, in row order, with every identity in the bucket of its lower-cased name |
| Store.MemoryManager.RegisterToCache | memory/memory_manager.py:128-131 | the object enters the cache, goes last in insertion order and is appended to its name bucket |
| Store.MemoryManager.SaveMemory | memory/memory_manager.py:137-157 | upserts the object's row under its identity |
| Store.MemoryManager.UpdateCached | memory/semantic_memory.py:47-53 | a caller's in-place change to the object `get` returned replaces the cached object; cache, order and index still agree |
| Store.MemoryManager.WriteBack | memory/semantic_memory.py:53-54 | that in-place change followed by `save_memory`: cache and table both hold the changed object and still agree |
| Store.MemoryManager.CreateMemory | memory/memory_manager.py:163-177 | the created object is cached, indexed and saved, and cache and table still agree |
| Store.MemoryManager.Get | memory/memory_manager.py:179-184 | an unknown id gives `None` and changes nothing; a known one is returned after one more use, and the cache and table both hold the used object |
| Store.MemoryManager.GetAll | memory/memory_manager.py:188 | looking up distinct cached ids uses each once (`TouchEach` of their objects) and returns them in order, as they stand after the use |
| Store.MemoryManager.FindByName | memory/memory_manager.py:186-188 | returns, in bucket order, exactly the cached objects whose lower-cased name is `name.lower()`, each after one use |
| Store.MemoryManager.Delete | memory/memory_manager.py:190-202 | an unknown id gives `False` and changes nothing; a known one leaves the cache, the order, the table and its name bucket |
| Store.MemoryManager.ListAll | memory/semantic_memory.py:119 | every cached object once, in insertion order, with no use |
| Strings.Lower | memory/memory_manager.py:130 | lower-casing keeps the length and maps each letter A-Z to a-z |
| Strings.LowerIdempotent | memory/memory_manager.py:187 | a lower-cased name is its own index key |
| Strings.EmptyOccursEverywhere | memory/semantic_memory.py:121 | the empty query occurs in every text |
| Lists.AppendMissing | memory/structured_memory.py:81-85 | the append-if-absent loop appends each missing element in order, and reports a change exactly when some element was missing |
| Lists.AppendAbsentIdempotent | memory/semantic_memory.py:75-78 | appending the same elements again changes nothing |
| Lists.AppendAbsentGrows | memory/semantic_memory.py:74-78 | the list grows exactly when some element was not yet present |
| Lists.RemoveFirst | memory/memory_manager.py:200 | `list.remove` takes out one occurrence, the first |
| Lists.RemoveFirstNoDup | memory/memory_manager.py:200 | in a duplicate-free list, `remove` takes out that element and nothing else |
| StructuredLayer.Redefine | memory/structured_memory.py:40-57 | each given field is replaced; non-empty metadata is merged, with its entries winning; the record is touched; every other field is kept |
| StructuredLayer.RedefineIdempotent | memory/structured_memory.py:43-54 | defining the same values again changes only the time stamp |
| StructuredLayer.WithRequirements | memory/structured_memory.py:77-92 | new aliases and constraints are appended in order, old ones kept, no duplicates introduced |
| StructuredLayer.WithRequirementsIdempotent | memory/structured_memory.py:80-97 | adding the same requirements again appends nothing, so it reports no change |
| StructuredLayer.DefineThenRead | memory/structured_memory.py:103-122 | the definition read back after `define` shows every given value |
| StructuredLayer.WellDefinedByDefine | memory/structured_memory.py:128-136 | defining a non-empty function for a named memory makes it well defined |
| StructuredLayer.CreatedNotWellDefined | memory/structured_memory.py:134-136 | a freshly created memory is not well defined |
| StructuredLayer.WellDefinedAmong | memory/structured_memory.py:142-144 | the filter keeps, in order, exactly the inputs whose cached object is well defined |
| StructuredLayer.WellDefinedAmongTouched | memory/structured_memory.py:142-144 | lookups do not change which objects are well defined |
| StructuredLayer.StructuredMemory.constructor | memory/structured_memory.py:18-20 | the layer works on the given manager |
| StructuredLayer.StructuredMemory.Define | memory/structured_memory.py:26-59 | unknown id: `False`, nothing changes; otherwise one use, and the record is redefined and saved exactly when some argument was given |
| StructuredLayer.StructuredMemory.AddRequirements | memory/structured_memory.py:65-97 | one use; reports a change exactly when some alias or constraint was new, and only then touches and saves the appended record |
| StructuredLayer.StructuredMemory.GetDefinition | memory/structured_memory.py:103-122 | the definition of a known object (after one use), `None` for an unknown one; the definition (`DefinitionOf`) carries the identity and the eleven structured fields of lines 110-122 |
| StructuredLayer.StructuredMemory.IsWellDefined | memory/structured_memory.py:128-136 | true exactly when the object exists and `WellDefined` holds of it (non-empty name and non-empty function, line 136); one use |
| StructuredLayer.StructuredMemory.FilterWellDefined | memory/structured_memory.py:142-144 | returns the filter's result, and each input is used once |
| SemanticLayer.WithTexts | memory/semantic_memory.py:61-82 | missing texts are appended in order after the old ones; a given hint is appended unless present; no duplicates introduced |
| SemanticLayer.WithTextsChanges | memory/semantic_memory.py:74-88 | the record changes exactly when some text or the hint is new |
| SemanticLayer.WithTextsIdempotent | memory/semantic_memory.py:74-82 | adding the same texts again changes nothing and reports no change |
| SemanticLayer.Search | memory/semantic_memory.py:107-125 | the search keeps, in order, exactly the objects with a text whose lower-cased form contains the query (`Strings.Contains`, Python's `in` at line 121: the query occurs at some position) |
| SemanticLayer.SearchDistinct | memory/semantic_memory.py:119-123 | no object is reported twice |
| SemanticLayer.EmptyQueryFindsAnyText | memory/semantic_memory.py:116-123 | the empty query finds exactly the objects with at least one text |
| SemanticLayer.FoundAfterAdd | memory/semantic_memory.py:47-48 | after a text is added, a search for it, in any case, finds the object |
| SemanticLayer.AnyContains | memory/semantic_memory.py:120-123 | the early-exit loop finds a match exactly when some text contains the query |
| SemanticLayer.SemanticMemory.constructor | memory/semantic_memory.py:20-21 | the layer works on the given manager |
| SemanticLayer.SemanticMemory.AddText | memory/semantic_memory.py:27-55 | unknown id: `False`, nothing changes; otherwise one use, then the text and hint are appended unless present, and the record is touched and saved |
| SemanticLayer.SemanticMemory.AddTexts | memory/semantic_memory.py:61-88 | one use; reports a change exactly when some text or the hint is new, and only then touches and saves |
| SemanticLayer.SemanticMemory.GetTexts | memory/semantic_memory.py:94-101 | the texts of a known object (after one use), none for an unknown one |
| SemanticLayer.SemanticMemory.NaiveSearch | memory/semantic_memory.py:107-125 | exactly the cached objects mentioning the lower-cased query, in cache order, once each; nothing is used |
| VisualLayer.Clamp | memory/visual_memory.py:113 | the confidence is forced into [0, 1]; values inside are kept |
| VisualLayer.AddKeepsPlacesDistinct | memory/visual_memory.py:41-61 | since a box already marked on the image is refused, no two visuals mark the same box on the same image |
| VisualLayer.FindPlace | memory/visual_memory.py:42-44 | the duplicate check finds a match exactly when the box is already marked on that image |
| VisualLayer.OnImage | memory/visual_memory.py:90-93 | the filter keeps exactly the visuals on the image |
| VisualLayer.AddedVisualOnImage | memory/visual_memory.py:86-93 | after `add_visual`, reading that image's visuals gives the old ones plus the new one last |
| VisualLayer.Recalibrated | memory/visual_memory.py:116-119 | every visual on the image gets the new confidence; nothing else about any visual changes |
| VisualLayer.RecalibratedIdempotent | memory/visual_memory.py:116-119 | setting the same confidence again changes nothing |
| VisualLayer.RecalibratedKeepsPlaces | memory/visual_memory.py:116-119 | recalibrating keeps distinct boxes distinct |
| VisualLayer.RecalibratedSharesIdentity | memory/visual_memory.py:116-122 | recalibrating keeps every visual's identity |
| VisualLayer.Recalibrate | memory/visual_memory.py:111-119 | the update loop gives the recalibrated visuals and reports whether any visual was on the image |
| VisualLayer.VisualMemory.constructor | memory/visual_memory.py:16-18 | the layer works on the given manager |
| VisualLayer.VisualMemory.AddVisual | memory/visual_memory.py:24-66 | one use; adds the visual exactly when the object exists and the box is new on that image, and then touches and saves |
| VisualLayer.VisualMemory.GetVisuals | memory/visual_memory.py:72-93 | all visuals, or those on the given image, of a known object after one use; none for an unknown one |
| VisualLayer.VisualMemory.UpdateConfidence | memory/visual_memory.py:99-125 | one use; changes exactly when some visual is on the image, and then sets their clamped confidence, touches and saves |
| VisualLayer.VisualMemory.HasVisual | memory/visual_memory.py:131-135 | true exactly when the object exists and has a visual; one use |
| Ranking.UsageBonus | memory/memory_merger.py:80 | one hundredth per use, capped at ten |
| Ranking.Score | memory/memory_merger.py:61-80 | a well-defined candidate scores 0.70-1.00, an incomplete one 0.20-0.50, so the first always outranks the second |
| Ranking.ScoreMonotoneInUsage | memory/memory_merger.py:78-80 | more use never lowers a score, and past the cap it stops raising it |
| Ranking.ScoreAll | memory/memory_merger.py:59-82 | the scored list holds exactly the candidates the visual filter keeps, each with its score |
| Ranking.ScoreAllDistinct | memory/memory_merger.py:59-82 | distinct candidates give distinct scored entries |
| Ranking.SortDesc | memory/memory_merger.py:85 | the sort keeps length and members and orders scores from highest to lowest |
| Ranking.SortDescPermutes | memory/memory_merger.py:85 | the sort is a permutation |
| Ranking.SortDescStable | memory/memory_merger.py:85 | the sort is stable: equal scores keep their order |
| Ranking.SortDescDistinct | memory/memory_merger.py:85 | sorting keeps distinct entries distinct |
| Ranking.Take | memory/memory_merger.py:89 | `s[:k]` is the prefix of length `min(k, len)`, and for negative `k` it drops `-k` from the end |
| Ranking.RankedFromCandidates | memory/memory_merger.py:56-89 | every result is a surviving candidate with its score, none twice |
| Ranking.RankedBestFirst | memory/memory_merger.py:84-89 | results come best first, and no survivor left out scores above a returned one |
| Ranking.RankedHaveVisuals | memory/memory_merger.py:71-73 | with visuals required, every result has one |
| Ranking.RankedLength | memory/memory_merger.py:89 | `min(top_k, survivors)` results; no candidates, no results |
| Ranking.RankedKeepsTies | memory/memory_merger.py:85-89 | results with equal scores come in search order |
| Ranking.Explain | memory/memory_merger.py:105-116 | one entry per candidate, in order; each entry (`ExplanationOf`, the dict at lines 109-115) holds the name, the usage as found, whether a visual is present and whether it is well defined |
| Merger.ReinforceIsTwoUses | memory/memory_merger.py:91-92 | `usage_count += 1` then `touch()` is two uses |
| Merger.Reinforced | memory/memory_merger.py:88-94 | each returned memory is the cached one after two more uses |
| Merger.AccumulateScore | memory/memory_merger.py:61-80 | the scoring loop's running total comes to the candidate's score |
| Merger.WinnersReady | memory/memory_merger.py:59-94 | the kept memories are distinct, and each has been used twice by the scoring |
| Merger.ReinforcedWinners | memory/memory_merger.py:89-94 | each returned memory has four more uses than when the search found it |
| Merger.RetrieveUses | memory/memory_merger.py:41-96 | after `retrieve`, each memory has two more uses if it was a candidate and two more if it was returned; all others are unchanged |
| Merger.MemoryMerger.constructor | memory/memory_merger.py:25-35 | all layers work on the merger's manager |
| Merger.MemoryMerger.Assess | memory/memory_merger.py:59-82 | one candidate: two uses; it survives exactly when the visual filter keeps it, and then gets its score |
| Merger.MemoryMerger.ScoreCandidates | memory/memory_merger.py:56-82 | the scoring loop gives the scored survivors, and each candidate has two uses |
| Merger.MemoryMerger.Reinforce | memory/memory_merger.py:88-94 | each kept memory gets two uses, is saved, and is returned as it then stands |
| Merger.MemoryMerger.Retrieve | memory/memory_merger.py:41-96 | returns the ranked survivors of the search (`Ranked`: scored, sorted best first, cut to `top_k`, lines 85-89), each after four uses; the cache records two uses per candidate and two more per result |
| Merger.MemoryMerger.Describe | memory/memory_merger.py:108-115 | one report entry, read before its two lookups, which use the candidate twice |
| Merger.MemoryMerger.ExplainLogic | memory/memory_merger.py:102-116 | one entry per search candidate, in order, with no filter and no cut; each candidate is used twice |

## Left out

- The SQLite table and its JSON payloads: the table is a map from identity to object, and the row encoding is taken to round-trip exactly (memory/memory_manager.py:46-78, 87-120, 141-157).
- `utcnow()` and `uuid.uuid4()` are parameters. `CreateMemory` requires the generated id to be unused, where the source relies on the uuid being random.
- Store.MemoryManager.ListAll: `list_all` is called by `naive_search` but not defined in memory_manager.py. It is modelled as every cached object in insertion order.
- Merger.MemoryMerger.ExplainLogic: leaves out `last_seen`. As written, line 114 reads `m.updated_at`, which `MemoryObject` does not have. That raises for the first candidate, after its two lookups. The model builds the other fields for every candidate.
- Merger.MemoryMerger.ExplainLogic: `explain_logic` is documented as not changing usage, but its lookups go through `get` and count as uses. The model follows the code.
- VisualLayer.VisualMemory.AddVisual: the `metadata` argument is left out. As written, a non-empty `metadata` raises, because `VisualEntity` has no `metadata` field. The model is the `metadata=None` path.
- Ranking.Score: floating-point scores are modelled as exact hundredths. Equal scores reached by different sums may compare differently in floats, which can change the order of ties.
- Ranking.SortDesc: Python's `list.sort` (Timsort) is modelled by the order it must produce, a stable descending sort, written as an insertion sort.
- Merger.MemoryMerger.Retrieve: the candidates are the cached objects themselves, so `usage_count` at line 80 already includes the candidate's two lookups. The model scores with that count. The scoring and reinforcement loops are the helper methods `Assess`, `ScoreCandidates` and `Reinforce`.
- Strings.Lower: only ASCII letters are lower-cased; Unicode case mapping is left out.
- Metadata dictionaries are `map<string, string>`; values of other types are left out.
- A `None` list argument to `add_requirements` is modelled as the empty list, which behaves the same (lines 81 and 88 skip both).
- SemanticLayer.SemanticMemory.AddTexts: `add_texts` with `texts=None` is not modelled. As written, the loop at line 75 raises, after `get` has already used and saved the object.
- Value semantics: `create_memory`, `get`, `find_by_name`, `retrieve`, `get_texts`, `get_visuals` and `get_definition` return live references to the cached objects and their lists, so a caller that mutates a result changes the cache. The model returns copies. Sharing is captured only where the core itself mutates through such a reference (`UpdateCached`, `WriteBack`).
- Schema.Create: `EntityType` and `Source` are closed datatypes, where the source takes `entity_type` and `source` as strings. The `Literal` annotations are not enforced by the dataclasses, so any other string would be stored unchecked. The model admits only the listed values.
- Embedding fields (`embedding`, `visual_embedding`) are never set by the core and are left out. core/intent_classifier.py is not part of this model.
