# A verified model of the FDB record layer

This project models, in Dafny, the parts of the record layer whose correctness spans several functions or a whole
run: key expressions and the secondary indexes built from them, the record store that keeps them in step, the online
index builder, rank indexes, the two query planners, the SQL expression parser, and four supporting algorithms (the
LRU cache, multi-key sorting, record splitting, the connection pool). `dafny verify dfyconfig.toml` checks all of it.

The key-value store is an ordered map from tuples to values. A packed tuple is the tuple itself; `pack(t)` followed by
`\x00` is the position just after `t`, and followed by `\xff` the position just after every extension of `t`
(`Values.Cut`). Code that works by changing state is a class or a method with loops, proved equal to a function of
the old state; what the system promises is then proved about those functions, for all inputs, all runs, all
interleavings.

| file | subject |
|---|---|
| `Values`, `KeySpace`, `Decimal`, `Wrappers` | column values and their total order, sorted reads, number text, Option and Result |
| `KeyExpressions` | key evaluation, the cross product of concatenations, normalisation, entry keys and their decoding |
| `Indexes`, `RecordStore`, `RecordStoreClass`, `BatchWrites` | VALUE, TEXT, COUNT and SUM maintenance; records and indexes over runs of saves and deletes; batches with repeated keys |
| `OnlineBuild`, `BuildLists`, `OnlineBuilder` | the online build as a state machine interleaved with other callers, builds over lists of types, and the builder class |
| `RankIndex`, `RankRuns` | the bucket counters of a RANK index, ranks and rank ranges; the index over runs of the store |
| `ValueIndexScan`, `ScanBounds` | index scans with continuations, scan bounds and the key ranges they become |
| `Query`, `Planner`, `PlanChoice`, `PlanExactness`, `PlanGuards` | what a filter means, the heuristic planner, which index it picks, what its plans return and when that is right |
| `CascadesExpressions`, `PredicateSplit`, `PredicatePrinted`, `MemoGroups`, `MemoPrinted`, `MemoMerge`, `MemoWinners`, `MemoClass`, `CascadesRules`, `CascadesGuards`, `CascadesPlanner`, `CascadesProgress` | the Cascades memo, rules, when they are right and what they are sure to add, winners and extraction |
| `SqlLexer`, `SqlLexemes`, `SqlAst`, `SqlParser`, `SqlParserClass`, `SqlPrinted`, `SqlLexPrinted`, `SqlGrammar`, `SqlGrammarReads`, `SqlGrammarSound`, `SqlRoundTrip` | lexing, printing and parsing SQL expressions; the grammar, and that the parser accepts exactly it |
| `LruCache`, `MultiKeySort`, `SplitRecords`, `ConnectionPools` | the supporting algorithms |

## Where the code does less than it says

Each of these is kept as the code has it, with the exact condition under which the promise holds.

- A lone comparison on an indexed field becomes an unfiltered index scan whatever its operator. It is answered exactly
  for the comparisons of `ExactComparison` and, under primary keys of plain fields, no others
  (`PlanGuards.LoneComparisonExactIff`). What a conjunction needs is `PlanGuards.PlanAndExactIff`.
- The planner ignores an index's kind: over a COUNT, SUM or TEXT index the plan returns nothing, so
  it is right exactly when no value satisfies the comparison (`PlanGuards.PlanFieldExactIff`). A union tells records apart by primary key only: it keeps every record
  of the wanted type exactly when none comes after another type's record with its key (`PlanExactness.UnionExactIff`).
  Queries over universal indexes are exact when no record the scans come upon shares a key with one of the type
  (`PlanExactness.PlanQueryExact`).
- Folded bounds mean the conjunction of the comparisons unless a strict and a non-strict bound tie on the extreme value
  (`ScanBounds.FoldLowMeansAllIff`, `FoldHighMeansAllIff`); an exclusive lower bound scans the inclusive range
  (`ScanBounds.RangeIsPrefixAndBounds`).
- `get_rank` adds the counts of all four bucket levels: it lies between the rank and four times the rank, and is the
  rank exactly when no entry lies below the score's bucket of ten (`RankIndex.RankExactIff`, `RankOvercounts`).
- Paging stops for good at the end of a page with a dangling entry: it visits everything that loads exactly when nothing
  beyond that page does (`ValueIndexScan.PagingIsCompleteIff`).
- The builder keeps one bare primary key as its position for all record types. Builds over a list of types are right on
  every store and in every interleaving exactly when no batch full of earlier types' records can carry the position to
  the key of a record with entries; otherwise one goes wrong on a store that saves produce
  (`BuildLists.BuildsRightIff`). They are right where each type's keys come after those of the types listed before it,
  as with primary keys that begin with the record type (`TypePrefixedKeysBuildRight`). They go wrong, for any batch size,
  where the first type is keyed by a plain field and a later type's record with an integer key has entries
  (`IntegerKeysGoWrong`).
- A save or delete while an index is DISABLED keeps the index right exactly when it could not tell the records apart
  (`RecordStore.DisabledSaveAgreesIff`, `DisabledDeleteAgreesIff`).
- A batch reads every old record first. With repeated keys `save_records` keeps a VALUE or TEXT index right exactly when
  no earlier version has an entry that neither the last version nor the record stored before had
  (`BatchWrites.BatchSaveAgreesIff`). `delete_records` counts a key each time it is listed
  (`BatchWrites.BatchDeleteCountsPlaces`) and subtracts from COUNT and SUM each time (`BatchWrites.BatchDeleteAgreesIff`).
- The Cascades rules are sound under `MemoGroups.Safe`. Each clause stands for an exact condition: a union that keeps
  duplicates is implemented rightly when the inputs have no row twice (`CascadesGuards.UnionImplementedIff`) and filtered
  rightly when they have no row twice that the filter holds of (`PushDownIff`), index
  selection when each index serves the filter exactly (`SelectionIsSoundIff`), a filter goes below a projection when it
  cannot tell records from their projections (`PushFilterIff`, `PushFieldIff`).
- `merge_groups` lets a group reach itself exactly when the emptied group reached the kept one
  (`MemoMerge.MergeKeepsAcyclicIff`). Members that name the emptied group keep naming it and never resolve
  (`MemoMerge.MergedAwayNeverResolves`); extraction drops a child group without a choice in silence
  (`MemoGroups.ExtractDropsUnresolved`).
- A transformation rule counts as tried for the whole group once it matched one member: it is never tried on another
  member of that group again (`MemoWinners.TriedOnce`).
- The printer does not escape quotes in string literals (`SqlRoundTrip.StringRoundTripsIff`). After the recursion error
  the parser's depth counter is one too high: the entry that finds the limit exceeded is never left
  (`SqlParserClass.DepthAfter`).
- Saving a split record does not clear older chunks or an unsplit version (`SplitRecords.SaveOverwritesIff`), and
  deleting does not clear a bare key (`SplitRecords.DeleteSaveLoadIff`). Primary keys of different widths run into each
  other: a delete spares another key exactly when that key does not extend the deleted one, a save exactly when the two
  do not meet in a suffix (`SplitRecords.DeleteLeavesAloneIff`, `SaveLeavesAloneIff`).
- An unfiltered `SELECT ... ORDER BY` reorders the stored table, and `LIMIT 0` reads as no limit
  (`MultiKeySort.Table.ExecuteSelect`, `Window`).
- A task past the pool's closed check still gets a connection after the pool is closed: a closed pool hands nothing out
  any more exactly when no task is on its way in (`ConnectionPools.QuietAfterCloseIff`).

## Model

| member | source | states |
|---|---|---|
| KeyExpressions.EvaluateConcat | fdb_record_layer/expressions/concat.py:33-65 | the two loops give the ordered cross product of the children's keys; with no children, one empty key |
| KeyExpressions.ConcatKeysAt | fdb_record_layer/expressions/concat.py:33-65 | the keys of a concatenation are one for each choice of a key per child, the children's keys joined in order |
| KeyExpressions.FansRelate | fdb_record_layer/expressions/field.py:31-78 | a repeated field read by FAN_OUT, NONE and CONCATENATE: a key per value, the first of those, one key of one column holding them all |
| KeyExpressions.MissingValues | fdb_record_layer/expressions/field.py:31-78 | without a value there is one null key or no key, by the null rule; only a concatenated list keeps its column when empty |
| KeyExpressions.NestedKeys | fdb_record_layer/expressions/nest.py:29-57 | through a repeated message the keys are those of each message, in order |
| KeyExpressions.CrossAssociates | fdb_record_layer/expressions/concat.py:33-65 | the cross product is associative as an ordered list, empty lists included |
| KeyExpressions.NormalizeConcat | fdb_record_layer/expressions/concat.py:77-95 | the loop over one growing list is the recursive flattening, with its empty and one-child cases |
| KeyExpressions.NormalizePreservesKeys | fdb_record_layer/expressions/concat.py:77-95 | for every nesting, normalising keeps every record's keys in order and the number of columns |
| KeyExpressions.NormalizeFlattens | fdb_record_layer/expressions/concat.py:77-95 | no concatenation is left directly inside another |
| KeyExpressions.KeysHaveColumnSize | fdb_record_layer/expressions/concat.py:67-69 | every key any expression produces has get_column_size columns |
| KeyExpressions.GetIndexKey | fdb_record_layer/indexes/maintainer.py:218-240 | one entry key per produced key, in order: columns, then type, then primary key |
| KeyExpressions.DecodeInvertsFullKey | fdb_record_layer/indexes/value_index.py:108-114 | splitting an entry at get_column_size gives back its columns, its type and its primary key |
| KeyExpressions.FullKeysIdentifyRecord | fdb_record_layer/indexes/maintainer.py:218-240 | two records that share an entry have the same type and primary key |
| Indexes.UpdateValue | fdb_record_layer/indexes/value_index.py:40-52 | afterwards the index holds the old entries and exactly the record's, none twice |
| Indexes.RemoveValue | fdb_record_layer/indexes/value_index.py:54-65 | afterwards the index lacks exactly the record's entries |
| Indexes.UpdateText | fdb_record_layer/indexes/text_index.py:89-106 | one entry per distinct token, holding its first position |
| Indexes.RemoveText | fdb_record_layer/indexes/text_index.py:108-125 | afterwards the index lacks exactly the record's token entries |
| Indexes.TextHoldsFirstPositions | fdb_record_layer/indexes/text_index.py:89-106 | a token has an entry exactly when it stands in the text, and the entry holds the position where it first stands |
| Indexes.AddPerKey | fdb_record_layer/indexes/count_index.py:55-94 | the atomic adds of update and remove, one per produced key, wrapping at 64 bits |
| Indexes.MaintainedAgrees | fdb_record_layer/core/store.py:584-612 | replacing, adding or deleting a record keeps an index equal to recomputing it: VALUE, TEXT, COUNT and SUM alike |
| Indexes.MaintainedTotalsAgree | fdb_record_layer/indexes/count_index.py:239-277 | each total stays the sum of the records' amounts modulo 2^64; `CountIsNumberOfPairs` and `SumIsSumOfField` say what those add up to |
| Indexes.NotCoveredAgrees | fdb_record_layer/core/store.py:584-612 | changes to types the index does not cover leave it right |
| Indexes.EntriesIdentifyRecord | fdb_record_layer/indexes/text_index.py:89-125 | VALUE and TEXT entries of different records never coincide |
| Indexes.CountIsNumberOfPairs | fdb_record_layer/indexes/count_index.py:112-132 | a COUNT total is the number of (record, key occurrence) pairs, while below 2^63 |
| Indexes.SumIsSumOfField | fdb_record_layer/indexes/count_index.py:224-277 | a SUM total is the sum of the integers in the value field over the (record, key occurrence) pairs, 0 where there is none: modulo 2^64, and outright while it fits 64 bits |
| RecordStore.MaintainAllContents | fdb_record_layer/core/store.py:584-612 | each index that is not DISABLED and covers the type is maintained on its own; nothing else changes |
| RecordStore.RunAgrees | fdb_record_layer/core/store.py:130-203 | over every run of saves, deletes and state changes, an index never DISABLED equals what recomputing gives |
| RecordStore.StoresLastSaved | fdb_record_layer/core/store.py:130-203 | after any calls each key holds the record last saved under it and not deleted since, and no other key holds one |
| RecordStore.EmptyAgrees | fdb_record_layer/core/store.py:61-96 | an empty store starts in agreement |
| RecordStore.DisabledSaveAgreesIff | fdb_record_layer/core/store.py:584-612 | while DISABLED a save keeps an index of any kind right exactly when it could not tell the new record from what was stored: the same entries, or shares equal modulo 2^64 |
| RecordStore.DisabledDeleteAgreesIff | fdb_record_layer/core/store.py:584-612 | and a delete exactly when the record had no entries, or shares of 0 modulo 2^64 |
| RecordStore.BatchSaveRefinesSequence | fdb_record_layer/core/store.py:858-925 | with distinct keys a batch save leaves the same records and index contents as single saves |
| BatchWrites.BatchSaveAgreesIff | fdb_record_layer/core/store.py:858-925 | over any item list a batch save keeps an index in agreement exactly when no overwritten version leaves a stale entry, or the overwritten versions' shares cancel |
| BatchWrites.EntriesAfterAgreeIff | fdb_record_layer/core/store.py:858-925 | for VALUE and TEXT: each version's entries are among the last version's and the previously stored record's |
| BatchWrites.TotalsAfterAgreeIff | fdb_record_layer/core/store.py:858-925 | for COUNT and SUM: what overwritten changes add is 0 modulo 2^64 for every key |
| RecordStore.BatchDeleteRefinesSequence | fdb_record_layer/core/store.py:927-983 | with distinct keys a batch delete leaves what single deletes leave |
| RecordStore.BatchDeleteCountsPresent | fdb_record_layer/core/store.py:927-983 | with distinct keys the delete count is the number of listed keys that were stored |
| BatchWrites.BatchDeleteCountsPlaces | fdb_record_layer/core/store.py:927-983 | in general it counts a stored key each time it is listed |
| BatchWrites.BatchDeleteAgreesIff | fdb_record_layer/core/store.py:927-983 | repeated keys never harm VALUE and TEXT indexes, and COUNT and SUM exactly when the shares subtracted again do not cancel |
| RecordStoreClass.FDBRecordStore.UpdateIndexes | fdb_record_layer/core/store.py:584-612 | the loop over the indexes computes the specified contents |
| RecordStoreClass.FDBRecordStore.SaveRecord | fdb_record_layer/core/store.py:130-203 | the whole new state and the key or the error; an unknown type changes nothing |
| RecordStoreClass.FDBRecordStore.DeleteRecord | fdb_record_layer/core/store.py:334-388 | the whole new state and whether the record existed |
| RecordStoreClass.FDBRecordStore.SaveRecords | fdb_record_layer/core/store.py:858-925 | the batch state; it fails as a whole, before any write, exactly when some key fails |
| RecordStoreClass.FDBRecordStore.DeleteRecords | fdb_record_layer/core/store.py:927-983 | the batch state and count, or an untouched store |
| RecordStoreClass.FDBRecordStore.SetIndexState | fdb_record_layer/core/store.py:459-488 | only that index's state changes |
| OnlineBuild.NextKeepsInvariant | fdb_record_layer/indexes/builder.py:239-303 | every batch and every other caller's step keeps: no entry without a record, all records up to the position indexed |
| OnlineBuild.CompletedBuildAgrees | fdb_record_layer/indexes/builder.py:148-303 | from any store without dangling entries, whatever the index's state, in every interleaving, over a list on which no batch can overtake a record with entries: once the build completes the index is exactly the stored records' entries |
| OnlineBuild.BuildMayStart | fdb_record_layer/indexes/builder.py:148-190 | an empty index over records under their own keys may be built from any state, DISABLED included: the build's first step establishes the invariant |
| OnlineBuild.StateFollowsPhase | fdb_record_layer/indexes/builder.py:148-190 | in every interleaving in which the other callers leave the index's state alone, it is WRITE_ONLY exactly as long as the build runs, and READABLE when it completes |
| OnlineBuild.ReadableAgrees | fdb_record_layer/indexes/builder.py:148-237 | so from the moment a build begins, a READABLE index holds exactly the entries of the stored records |
| OnlineBuild.BatchShrinks | fdb_record_layer/indexes/builder.py:203-237 | a batch with more to come leaves strictly fewer records ahead |
| OnlineBuild.LaterTypeIsSkipped | fdb_record_layer/indexes/builder.py:305-343 | one position serves all types: a record at or before it is skipped whatever its type |
| OnlineBuild.LeftOutIsOvertaken | fdb_record_layer/indexes/builder.py:305-343 | a record that a batch leaves out comes after the batch's last record, or earlier types' records alone have filled the batch and overtaken it |
| BuildLists.BuildsRightIff | fdb_record_layer/indexes/builder.py:203-343 | every completed build of every store in every interleaving agrees exactly when records with entries are of covered types and no batch full of earlier types' records can reach their keys; if not, one goes wrong on a store reached by saves |
| BuildLists.OrderedTypesBuildRight | fdb_record_layer/indexes/builder.py:203-343 | builds are right where every type's keys come after those of the types listed before it |
| BuildLists.TypePrefixedKeysBuildRight | fdb_record_layer/indexes/builder.py:203-343 | so with primary keys that begin with the record type, listed in order of the types' names |
| BuildLists.IntegerKeysGoWrong | fdb_record_layer/indexes/builder.py:305-343 | for any batch size some build misses a record, where the first type is keyed by a plain field and a later type's record with an integer key has entries |
| OnlineBuilder.ScanRecords | fdb_record_layer/indexes/builder.py:305-343 | the nested loops return the first records after the position, up to the limit |
| OnlineBuilder.IndexRecords | fdb_record_layer/indexes/builder.py:345-353 | each scanned record's entries are added |
| OnlineBuilder.OnlineIndexBuilder.BuildBatch | fdb_record_layer/indexes/builder.py:239-303 | one step of the state machine, and progress when more is to come |
| OnlineBuilder.OnlineIndexBuilder.SetWriteOnly | fdb_record_layer/indexes/builder.py:161-162 | the index becomes WRITE_ONLY; no other state, record or entry changes |
| OnlineBuilder.OnlineIndexBuilder.BuildIndex | fdb_record_layer/indexes/builder.py:203-237 | the batch loop, with other calls between batches: WRITE_ONLY before every batch unless another caller sets the state |
| OnlineBuilder.OnlineIndexBuilder.Build | fdb_record_layer/indexes/builder.py:148-237 | from any state of the index, against any calls made between batches: WRITE_ONLY before every batch unless another caller sets the state, READABLE at the end, and exact where builds over the list are right |
| RankIndex.RunKeepsHierarchy | fdb_record_layer/indexes/rank_index.py:107-176 | after any run of updates and removes the level-k counter of a bucket counts the entries whose score falls into it |
| RankIndex.RankValue | fdb_record_layer/indexes/rank_index.py:236-281 | get_rank is the sum, over the four levels, of the entries below the score's bucket start |
| RankIndex.RankBounds | fdb_record_layer/indexes/rank_index.py:236-281 | it lies between the number of smaller scores and four times that |
| RankIndex.RankMonotone | fdb_record_layer/indexes/rank_index.py:236-281 | it never decreases as the score grows |
| RankIndex.RankExactIff | fdb_record_layer/indexes/rank_index.py:262-271 | it is the rank exactly when no entry lies below the score's bucket of ten |
| RankIndex.RankOvercounts | fdb_record_layer/indexes/rank_index.py:262-271 | with 1 and 20 stored the rank of 20 is 2, not 1 |
| RankIndex.CountIsSize | fdb_record_layer/indexes/rank_index.py:357-375 | summing the finest counters counts each entry once |
| RankIndex.SortedByScore | fdb_record_layer/indexes/rank_index.py:302-355 | entries in key order are in score order |
| RankIndex.LoadAllExact | fdb_record_layer/indexes/rank_index.py:302-355 | when every entry loads, a rank range is the exact slice of the sorted entries |
| RankIndex.EntryLoads | fdb_record_layer/indexes/rank_index.py:302-355 | an entry of an integer score loads the record it was made for |
| RankRuns.RunKeepsRank | fdb_record_layer/core/store.py:584-608 | over every run of saves and deletes the RANK entries are those of the stored records and the counters count them |
| RankRuns.RankRangeIsExact | fdb_record_layer/indexes/rank_index.py:302-355 | so after any run a range of ranks is the exact slice, one stored record per entry, in order |
| RankIndex.RankIndexMaintainer.Update | fdb_record_layer/indexes/rank_index.py:107-142 | the entry is added and counted on every level once, also when saved again |
| RankIndex.RankIndexMaintainer.Remove | fdb_record_layer/indexes/rank_index.py:144-176 | the entry goes and its counters with it, or nothing changes |
| RankIndex.RankIndexMaintainer.GetRank | fdb_record_layer/indexes/rank_index.py:236-281 | the loop's sum, within the bounds above |
| RankIndex.RankIndexMaintainer.GetCount | fdb_record_layer/indexes/rank_index.py:357-375 | the number of entries |
| RankIndex.RankIndexMaintainer.GetByRankRange | fdb_record_layer/indexes/rank_index.py:302-355 | the loadable records of the slice, in order; empty for an empty range |
| RankIndex.WalkRanks | fdb_record_layer/indexes/rank_index.py:302-355 | skipping to the start rank and stopping at the end rank visits exactly the slice |
| ValueIndexScan.ScanKeys | fdb_record_layer/indexes/value_index.py:93-128 | the loop returns the page: at most limit loadable records, and a continuation exactly when more was found |
| ValueIndexScan.PagesAreFull | fdb_record_layer/indexes/value_index.py:93-128 | a page continues exactly when it is full and the range goes on, just after the page's last key; its records are those of the range's first entries |
| ValueIndexScan.PagingIsComplete | fdb_record_layer/indexes/value_index.py:67-128 | restarting from each continuation visits every entry of the range once, in order, and stops |
| ValueIndexScan.PagingStopsAtDangling | fdb_record_layer/indexes/value_index.py:67-128 | with a dangling entry on page p, paging ends after that page and the one key beyond it |
| ValueIndexScan.PagingIsCompleteIff | fdb_record_layer/indexes/value_index.py:67-128 | paging visits every loadable entry exactly when nothing that loads lies beyond the page of the first entry that does not |
| ScanBounds.FromScanComparisons | fdb_record_layer/planner/scan_comparisons.py:275-325 | the loop computes the folded bounds |
| ScanBounds.FoldLowIsGreatest | fdb_record_layer/planner/scan_comparisons.py:275-325 | the lower bound is the greatest among the comparisons, inclusive exactly when some non-strict one has its value |
| ScanBounds.FoldHighIsLeast | fdb_record_layer/planner/scan_comparisons.py:275-325 | the upper bound is the least, inclusive likewise |
| ScanBounds.FoldLowMeansAllIff | fdb_record_layer/planner/scan_comparisons.py:275-325 | the lower bound means all the comparisons together, exactly when no strict and non-strict one tie on it |
| ScanBounds.FoldHighMeansAllIff | fdb_record_layer/planner/scan_comparisons.py:275-325 | the same for the upper bound |
| ScanBounds.RangeIsPrefixAndBounds | fdb_record_layer/plans/index_plan.py:100-137 | the key range holds exactly the entries with the prefix and between the bounds, a strict lower bound read as non-strict |
| Planner.MatchOne | fdb_record_layer/planner/heuristic.py:341-417 | one index's match by the code's loops |
| Planner.MatchIndex | fdb_record_layer/planner/heuristic.py:341-417 | the first index of the best positive score, its comparisons and the unmatched predicates |
| PlanChoice.MatchIsLongest | fdb_record_layer/planner/heuristic.py:341-417 | an index is matched on the longest prefix of its fields that have equalities, each field's first one, and on the next field's last inequality |
| PlanChoice.BestIndexIsMostUseful | fdb_record_layer/planner/heuristic.py:341-417 | the index used is the first of those on which the predicates fix the most leading fields, a bound counting half; none exactly when none has its first field compared |
| Planner.PlanAndLoop | fdb_record_layer/planner/heuristic.py:181-228 | the plan of a conjunction |
| Planner.PlanOrLoop | fdb_record_layer/planner/heuristic.py:230-266 | a union when no branch needs a full scan, else one filtered scan |
| Planner.PlanFieldLoop | fdb_record_layer/planner/heuristic.py:290-318 | the first index on the field, whatever the operator |
| Planner.PlanFilterLoop | fdb_record_layer/planner/heuristic.py:149-179 | the dispatch over all filters |
| PlanChoice.NoFullScanIff | fdb_record_layer/planner/heuristic.py:149-318 | a plan does without a full scan exactly for comparisons on an index's first field, conjunctions with an equality or inequality on one, and disjunctions of at least two such filters |
| Planner.ExecuteUnion | fdb_record_layer/plans/union_plan.py:54-89 | children in turn, each primary key once |
| Query.TextComparisonMeans | fdb_record_layer/query/comparisons.py:142-147 | starts-with, ends-with and contains hold exactly when the value's text is the operand's with something after it, before it, or on both sides |
| Query.ComparisonsRelate | fdb_record_layer/query/comparisons.py:118-155 | the comparison types against each other: opposites, membership as some equality, exactly one of less, equal and greater, and no bound met by null |
| Query.NegationLaws | fdb_record_layer/query/components.py:141-223 | a negated conjunction is the disjunction of the negations, and the other way round |
| Query.NestedOr | fdb_record_layer/query/components.py:105-138 | a nested disjunction is the disjunction of the nested branches |
| Query.OneOfThemIsFanOut | fdb_record_layer/query/components.py:226-257 | some value of a field meets a comparison exactly when some fanned-out key of the field does |
| PlanExactness.EntryInRangeIff | fdb_record_layer/plans/index_plan.py:71-137 | an entry is scanned exactly when its columns meet the equalities and the folded bounds |
| PlanExactness.ScanIndexExact | fdb_record_layer/plans/index_plan.py:71-137 | an index scan returns each matching record of the type once and no other of the type; an index over more types adds stored records of those only |
| PlanGuards.LoneComparisonExactIff | fdb_record_layer/planner/heuristic.py:290-318 | the scan a lone comparison becomes is exact on every store for the listed comparisons over a VALUE index; with a primary key of plain fields for no others, and over another index exactly when no value satisfies the comparison |
| PlanGuards.PlanFieldExactIff | fdb_record_layer/planner/heuristic.py:290-318 | the same for the plan of a lone comparison, over the first index on its field whatever the kind |
| PlanGuards.IndexPlanAnswersIff | fdb_record_layer/plans/index_plan.py:71-137 | a plan over one index answers a query on every store exactly when it picks the right records among those that may be stored |
| PlanGuards.PlanAndExactIff | fdb_record_layer/planner/heuristic.py:181-228 | the plan of a conjunction is exact on every store exactly when, for records the residual holds of, the scan returns what the matched predicates ask for |
| PlanExactness.PlanAndExact | fdb_record_layer/planner/heuristic.py:181-228 | the planned conjunction returns, of the type, exactly the records that satisfy it, once each |
| PlanExactness.UnionExact | fdb_record_layer/plans/union_plan.py:54-89 | a union of exact branches is exact for the disjunction when no scanned record shares a primary key with one of the type |
| PlanExactness.PlanFilterExact | fdb_record_layer/planner/heuristic.py:149-318 | for every And/Or/Not tree the planned tree returns, of the type, exactly the satisfying records, once each |
| PlanExactness.PlanQueryExact | fdb_record_layer/planner/heuristic.py:85-118 | with its type filter the whole query returns exactly the satisfying records, once each; indexes may cover other types or all |
| PlanGuards.AggregateIndexHidesRecords | fdb_record_layer/planner/heuristic.py:290-318 | over an index of another kind the plan of a lone comparison returns nothing, whatever the index's root |
| PlanExactness.UnionExactIff | fdb_record_layer/plans/union_plan.py:54-89 | filtered by type, a union of any plans returns every record of the type some child returns exactly when each is the first listed with its primary key |
| CascadesExpressions.FilterThroughProject | fdb_record_layer/planner/cascades/rule.py:123-175 | filtering commutes with a projection that keeps the filter's fields, row by row with multiplicity |
| PredicateSplit.SplitIsEquivalent | fdb_record_layer/planner/cascades/rule.py:523-582 | scan part and residual together are equivalent to the predicate; the scan part looks at no other field |
| PredicateSplit.SplitIsComplete | fdb_record_layer/planner/cascades/rule.py:523-582 | nothing is left over exactly when the whole predicate can be scanned for; no part of what is left over could have been |
| PredicateSplit.SplitLoop | fdb_record_layer/planner/cascades/rule.py:523-582 | the recursion with its loops computes that split |
| PredicateSplit.SplitOr | fdb_record_layer/planner/cascades/rule.py:562-578 | giving up at the first branch not wholly scannable finds exactly the disjunctions that are |
| MemoGroups.FingerprintKeepsRows | fdb_record_layer/planner/cascades/memo.py:267-325 | an expression and its fingerprint, with predicates by value, denote the same rows |
| PredicatePrinted.PrintRead | fdb_record_layer/query/components.py:100-223 | a component's printed form determines it, up to operands its comparisons do not use |
| PredicatePrinted.SamePrintHolds | fdb_record_layer/query/components.py:70-268 | filters that print the same hold of the same records |
| MemoPrinted.SamePrintedSameResult | fdb_record_layer/planner/cascades/memo.py:267-325 | expressions whose fingerprints agree with predicates compared as printed denote the same rows, at the same depth |
| MemoGroups.SameFingerprintSameResult | fdb_record_layer/planner/cascades/memo.py:222-235 | expressions deduplicated into one group denote the same rows and have the same depth |
| MemoGroups.CreateGroupKeeps | fdb_record_layer/planner/cascades/memo.py:207-220 | a new group leaves the others alone and keeps every group's meaning and rank |
| MemoGroups.GetOrCreateGroupKeeps | fdb_record_layer/planner/cascades/memo.py:222-235 | the group returned denotes the expression |
| MemoGroups.AddToGroupKeeps | fdb_record_layer/planner/cascades/memo.py:247-265 | an added member has the group's result and its child groups denote its children |
| MemoGroups.MergeKeepsEquivalent | fdb_record_layer/planner/cascades/memo.py:339-371 | merging groups of equal result keeps every group's meaning |
| MemoGroups.MergeKeepsRank | fdb_record_layer/planner/cascades/memo.py:339-371 | and keeps ranks when the two have the same depth |
| MemoMerge.MergeKeepsAcyclicIff | fdb_record_layer/planner/cascades/memo.py:339-371 | in a memo where no group reaches itself, a merge keeps that exactly when the emptied group does not reach the kept one through child groups |
| MemoMerge.RankedIsAcyclic | fdb_record_layer/planner/cascades/memo.py:373-460 | ranks exclude groups that reach themselves |
| MemoMerge.MergedAwayNeverResolves | fdb_record_layer/planner/cascades/memo.py:339-371 | a member that named the emptied group still names it, never resolves, and loses that child in extraction |
| MemoGroups.OfferWinnerKeeps | fdb_record_layer/planner/cascades/planner.py:353-366 | a winner is a physical member; an offer leaves it never dearer than before or than the offer, and changes it only to the offered member and only when that is cheaper |
| MemoWinners.CheapestWins | fdb_record_layer/planner/cascades/planner.py:321-366 | over any tasks a group keeps its winner when no cheaper physical member was costed, and else its winner is the first of the cheapest costed, at that cost |
| MemoWinners.WinnerCostsLeast | fdb_record_layer/planner/cascades/planner.py:321-366 | so a winner costs no more than the one before and than any physical member costed since |
| MemoWinners.MergeKeepsCheaper | fdb_record_layer/planner/cascades/memo.py:339-371 | a merge keeps the cheaper of the two winners, the kept group's on equal cost, and no other group's winner changes |
| MemoWinners.TriedOnce | fdb_record_layer/planner/cascades/planner.py:260-290 | a transformation that has matched in a group is never applied in it again, to any member, whatever tasks run between |
| MemoWinners.DeduplicatedForGood | fdb_record_layer/planner/cascades/memo.py:222-235 | once an expression has a group, any expression with its fingerprint leads to that group for good and creates none |
| MemoWinners.MembersAreNumbered | fdb_record_layer/planner/cascades/memo.py:247-265 | whatever tasks run, no two members of any groups have the same number |
| MemoWinners.ExtractionFollowsWinners | fdb_record_layer/planner/cascades/memo.py:373-421 | the children of an extracted tree are, in order, the plans extracted for the child groups' winners, or first physical members where there is no winner |
| MemoGroups.RebuildSameResult | fdb_record_layer/planner/cascades/memo.py:423-460 | replacing children by ones of equal result keeps the result |
| MemoGroups.ExtractSameResult | fdb_record_layer/planner/cascades/memo.py:398-421 | extraction ends, and the tree denotes the member's result and is physical throughout, when every reached group has a choice |
| MemoGroups.BestPlanSameResult | fdb_record_layer/planner/cascades/memo.py:373-396 | the plan of a group's winner denotes what the group was created for |
| MemoGroups.ExtractDropsUnresolved | fdb_record_layer/planner/cascades/memo.py:398-421 | extraction keeps a child per child group exactly when each has a choice |
| MemoClass.Memo.CreateGroup | fdb_record_layer/planner/cascades/memo.py:207-220 | the groups, fingerprints and counter after creation, children first |
| MemoClass.Memo.GetOrCreateGroup | fdb_record_layer/planner/cascades/memo.py:222-235 | the group found or created, and the memo then |
| MemoClass.Memo.AddExpressionToGroup | fdb_record_layer/planner/cascades/memo.py:247-265 | the member appended after finding or creating its child groups in order |
| MemoClass.Memo.MergeGroups | fdb_record_layer/planner/cascades/memo.py:339-371 | members, explored rules, the cheaper winner and fingerprints move; the second group is emptied |
| MemoClass.Memo.OptimizeInputs | fdb_record_layer/planner/cascades/planner.py:321-366 | only a physical member cheaper than the winner becomes the winner; no group gets a dearer one |
| MemoClass.Memo.ExtractPlan | fdb_record_layer/planner/cascades/memo.py:398-421 | the loop over child groups extracts the specified tree |
| MemoClass.CascadesPlanner.ExploreExpression | fdb_record_layer/planner/cascades/planner.py:260-290 | each transformation not yet tried in the group adds its alternatives and is marked |
| MemoClass.CascadesPlanner.ImplementExpression | fdb_record_layer/planner/cascades/planner.py:292-319 | each matching implementation rule adds its alternatives, for logical members only |
| CascadesRules.PushFilterIsSound | fdb_record_layer/planner/cascades/rule.py:123-175 | the pushed filter denotes the same rows, and is no deeper |
| CascadesRules.FilterMergeIsSound | fdb_record_layer/planner/cascades/rule.py:177-219 | the merged filter denotes the same rows |
| CascadesRules.PushDownIsSound | fdb_record_layer/planner/cascades/rule.py:221-269 | the union of filters denotes the filter of the union |
| CascadesRules.ImplementIsSound | fdb_record_layer/planner/cascades/rule.py:276-402 | each physical form denotes its logical form's rows |
| CascadesRules.IndexPlanSameRows | fdb_record_layer/planner/cascades/rule.py:438-475 | index scan and residual filter return what filtering the table scan returns |
| CascadesRules.IndexPlansAreSound | fdb_record_layer/planner/cascades/rule.py:477-513 | for every index found applicable |
| CascadesRules.AlternativesAreSound | fdb_record_layer/planner/cascades/rule.py:627-645 | every alternative of every default rule, made from any member of the child group, is sound |
| CascadesProgress.MatchesIff | fdb_record_layer/planner/cascades/rule.py:123-269 | a rewriting rule matches a filter exactly when its input's group has a member of the kind the rule wants, in any place |
| CascadesProgress.MatchingRewrites | fdb_record_layer/planner/cascades/rule.py:123-269 | and then it gives the filter pushed below, merged with or spread over such a member |
| CascadesProgress.UsefulIndexesAreOffered | fdb_record_layer/planner/cascades/rule.py:477-513 | index selection offers a plan for every selectable index whose field some part of the filter is on |
| CascadesProgress.ExploredAdds | fdb_record_layer/planner/cascades/planner.py:260-290 | exploring a member adds every alternative of every matching rule not yet tried |
| CascadesProgress.ImplementAddsForms | fdb_record_layer/planner/cascades/planner.py:292-319 | implementing a logical member adds its physical forms |
| CascadesProgress.ImplementedMemberWins | fdb_record_layer/planner/cascades/planner.py:292-366 | so implementing a member and costing what that added gives its group a winner |
| CascadesProgress.MergeMovesAll | fdb_record_layer/planner/cascades/memo.py:339-371 | after a merge the kept group has the members of both, in order, and the emptied group's fingerprints lead to it |
| CascadesGuards.PushFilterIff | fdb_record_layer/planner/cascades/rule.py:153-174 | the push is right on every store exactly when the filter cannot tell a storable record from its projection |
| CascadesGuards.PushFieldIff | fdb_record_layer/planner/cascades/rule.py:153-174 | for one comparison, whatever the rows: exactly when the field is projected or no value satisfies the comparison |
| CascadesGuards.PushDownIff | fdb_record_layer/planner/cascades/rule.py:221-269 | for a union that keeps duplicates the pushed filters denote the same rows on a store exactly when the inputs have no row twice that the filter holds of |
| CascadesGuards.UnionImplementedIff | fdb_record_layer/planner/cascades/rule.py:368-385 | a union that keeps duplicates is implemented rightly on a store exactly when its inputs have no row twice |
| CascadesGuards.ScanTwiceIff | fdb_record_layer/planner/cascades/rule.py:368-385 | for one scan twice: exactly when the store has no record of its types |
| CascadesGuards.IndexPlanIff | fdb_record_layer/planner/cascades/rule.py:438-475 | an index plan agrees with the filtered scan on every store exactly when each record type is covered as it is listed, or no storable record of it satisfies the filter |
| CascadesGuards.SelectionIsSoundIff | fdb_record_layer/planner/cascades/rule.py:477-513 | all the plans index selection offers are right exactly when that holds of each index offered |
| CascadesGuards.CoveredScansAreServed | fdb_record_layer/planner/cascades/rule.py:477-513 | a covered scan meets that condition, so the guard is enough |
| CascadesPlanner.ProcessKeeps | fdb_record_layer/planner/cascades/planner.py:184-195 | exploring, implementing or costing any member keeps every group's meaning and rank |
| CascadesPlanner.ProcessAllKeeps | fdb_record_layer/planner/cascades/planner.py:173-182 | and so does any sequence of such tasks |
| CascadesPlanner.OptimizedSameResult | fdb_record_layer/planner/cascades/planner.py:143-167 | whatever tasks were processed, a plan extracted for the root denotes the query |
| CascadesPlanner.OptimizedQuerySameResult | fdb_record_layer/planner/cascades/planner.py:385-412 | for a query whose indexes cover just its types, whatever tasks run, a plan extracted at the end denotes the query |
| SqlLexer.Lexer.Tokenize | fdb_record_layer/relational/sql/lexer.py:258-266 | the tokens with their lines and columns, then one end token |
| SqlLexer.Lexer.NextToken | fdb_record_layer/relational/sql/lexer.py:268-296 | the token read and where the lexer then stands |
| SqlLexer.Lexer.SkipWhitespaceAndComments | fdb_record_layer/relational/sql/lexer.py:298-333 | blanks, line comments and block comments, an unclosed one up to the last character |
| SqlLexer.Lexer.ReadQuoted | fdb_record_layer/relational/sql/lexer.py:349-396 | doubled quotes, the closing quote, or no end |
| SqlLexer.Lexer.ReadNumber | fdb_record_layer/relational/sql/lexer.py:398-423 | digits, point and exponents |
| SqlLexer.Lexer.ReadOperator | fdb_record_layer/relational/sql/lexer.py:445-492 | two-character operators first |
| SqlLexemes.TokenIsLexeme | fdb_record_layer/relational/sql/lexer.py:268-492 | each token is spelled by the text it stands for and takes as much of it as it can |
| SqlLexemes.TokensSpellText | fdb_record_layer/relational/sql/lexer.py:258-492 | nothing of the text is lost: it is the tokens' spellings in turn, with blanks and comments between |
| SqlRoundTrip.PrintedTokens | fdb_record_layer/relational/sql/lexer.py:258-492 | lexing a printed expression gives exactly the tokens it is made of, and the end |
| SqlPrinted.PiecesSpellPrint | fdb_record_layer/relational/sql/ast.py:122-331 | the tokens, written one after the other, are the printed form |
| SqlRoundTrip.ParsesBack | fdb_record_layer/relational/sql/parser.py:744-1018 | wherever a printed expression stands, it is read back as one primary expression, or hits the depth limit by its nesting alone |
| SqlRoundTrip.RoundTrip | fdb_record_layer/relational/sql/parser.py:744-1018 | lexing and parsing the printed form gives the expression back exactly when its nesting fits the limit, else the recursion error |
| SqlRoundTrip.PrintIsInjective | fdb_record_layer/relational/sql/ast.py:122-331 | no two printable expressions print alike |
| SqlRoundTrip.StringRoundTripsIff | fdb_record_layer/relational/sql/ast.py:122-129 | a printed string literal comes back through lexer and parser exactly when it has no quote and the depth limit admits an expression |
| SqlGrammarReads.TreeReads | fdb_record_layer/relational/sql/parser.py:744-1018 | wherever a tree of the grammar stands, the function of any rank it may stand at reads it as what it means, precedence and grouping included |
| SqlGrammarSound.AcceptsExactlyTheGrammar | fdb_record_layer/relational/sql/parser.py:744-1018 | the parser reads all the tokens exactly when some tree within the depth limit is written as them, and as what that tree means |
| SqlGrammar.WrittenTokens | fdb_record_layer/relational/sql/lexer.py:258-492 | lexing what any tree of the grammar is written as gives its tokens and the end |
| SqlRoundTrip.TreeRoundTrip | fdb_record_layer/relational/sql/parser.py:744-1018 | lexing and parsing a written tree gives its meaning exactly when its nesting fits the limit |
| SqlRoundTrip.WrittenAlikeMeansAlike | fdb_record_layer/relational/sql/parser.py:744-1018 | the grammar is unambiguous: trees written alike mean the same |
| SqlRoundTrip.ChainFoldsLeft | fdb_record_layer/relational/sql/parser.py:849-885 | a chain of operators of one level without parentheses is the left fold over its operands, however many, each of them any tighter form |
| SqlRoundTrip.BareRoundTrip | fdb_record_layer/relational/sql/parser.py:744-1018 | an expression written with only the parentheses it needs comes back: precedence, NOT, comparisons and chains |
| SqlParserClass.Parser.ParseExpression | fdb_record_layer/relational/sql/parser.py:744-753 | result and position as the grammar says; the depth is back where it began, one higher after the recursion error |
| SqlParserClass.Parser.ParseOrExpression | fdb_record_layer/relational/sql/parser.py:755-763 | the loop folds to the left |
| SqlParserClass.Parser.ParseComparisonRest | fdb_record_layer/relational/sql/parser.py:785-833 | which of the comparison forms the tokens select |
| SqlParserClass.Parser.ParseInExpression | fdb_record_layer/relational/sql/parser.py:835-840 | the list between parentheses, or which token was missing |
| SqlParserClass.Parser.ParseBetweenExpression | fdb_record_layer/relational/sql/parser.py:842-847 | both bounds around AND, or which token was missing |
| SqlParserClass.Parser.ParseAdditiveExpression | fdb_record_layer/relational/sql/parser.py:849-866 | the loop over plus, minus and concatenation computes what the grammar says; that chains group to the left is `SqlRoundTrip.ChainFoldsLeft` |
| SqlParserClass.Parser.ParseMultiplicativeExpression | fdb_record_layer/relational/sql/parser.py:868-885 | the loop over times, divide and modulo |
| SqlParserClass.Parser.ParsePrimaryExpression | fdb_record_layer/relational/sql/parser.py:895-947 | literals, parameters, parentheses, names and calls |
| SqlParserClass.Parser.ParseFunctionCall | fdb_record_layer/relational/sql/parser.py:953-969 | DISTINCT, no arguments, a star, or a list |
| SqlParserClass.Parser.ParseExpressionList | fdb_record_layer/relational/sql/parser.py:1013-1018 | one expression, then one per comma |
| SqlParserClass.NewParser | fdb_record_layer/relational/sql/parser.py:95-118 | too long an input is refused, else the parser stands at the first token |
| LruCache.RunIsValid | fdb_record_layer/utils/cache.py:129-205 | after any trace the cache holds at most its size, each key once |
| LruCache.HitsReturnLastPut | fdb_record_layer/utils/cache.py:129-162 | a hit returns the value last put |
| LruCache.HeldIff | fdb_record_layer/utils/cache.py:129-205 | a key is held exactly when it was put, not taken out since, and fewer other keys than there is room for have come into use since its own last put or hit |
| LruCache.PutThenGet | fdb_record_layer/utils/cache.py:129-185 | with room for anything, a get straight after a put of its key hits with the value put |
| LruCache.CountersBalance | fdb_record_layer/utils/cache.py:129-205 | the counters tell hits from misses, and every entry that came in is held, was taken out or counted as evicted |
| LruCache.IncludedStep | fdb_record_layer/utils/cache.py:129-205 | each operation keeps a smaller cache included in a larger |
| LruCache.RunIncluded | fdb_record_layer/utils/cache.py:129-205 | after any common trace the smaller cache's order is the larger's restricted to its keys, values agree, and it has no more hits |
| LruCache.LRUCache.Get | fdb_record_layer/utils/cache.py:129-162 | the new order and counters; the value or the default |
| LruCache.LRUCache.Put | fdb_record_layer/utils/cache.py:164-185 | update and move, or append and evict the least recently used; that what is put is kept is `LruCache.HeldIff` |
| LruCache.LRUCache.Remove | fdb_record_layer/utils/cache.py:187-200 | the key gone, and whether it was there |
| MultiKeySort.SortAllIsLexicographic | fdb_record_layer/relational/database.py:205-212 | the passes list each row once, in the order of the first key that tells rows apart, ties by original position |
| MultiKeySort.PassRefinesOrder | fdb_record_layer/relational/database.py:205-212 | a stable pass by one more leading key turns the order by the later keys into the order by all |
| MultiKeySort.AheadIsTotal | fdb_record_layer/relational/database.py:205-212 | that order is total: exactly one of two rows is ahead |
| MultiKeySort.NullsAtTheEnds | fdb_record_layer/relational/database.py:209-210 | nulls come last upward and first downward |
| MultiKeySort.SortAllIsPermutation | fdb_record_layer/relational/database.py:205-212 | no row is lost or doubled |
| MultiKeySort.SortPasses | fdb_record_layer/relational/database.py:205-212 | the loop over the reversed fields |
| MultiKeySort.MatchingKeepsOrder | fdb_record_layer/relational/database.py:165-204 | a WHERE keeps exactly the rows the filter accepts, in the table's order |
| MultiKeySort.Table.ExecuteSelect | fdb_record_layer/relational/database.py:165-240 | row j of the result is row offset + j of the sorted matching rows, as many as the limit and the rows allow; the table keeps its own rows, reordered exactly when there was no filter |
| SplitRecords.ChunksWritten | fdb_record_layer/compat/split.py:67-80 | the chunks in order are the data, and no other pair changes |
| SplitRecords.ChunksAreFull | fdb_record_layer/compat/split.py:67-80 | every chunk but the last is full, the last holds the rest |
| SplitRecords.ChunkCountIsCeiling | fdb_record_layer/compat/split.py:67-80 | one pair per started 100,000 bytes |
| SplitRecords.LoadAfterSplitSave | fdb_record_layer/compat/split.py:97-158 | what loading gives after a split save over any state |
| SplitRecords.SaveOverwritesIff | fdb_record_layer/compat/split.py:39-80 | without a delete first, a save loads back exactly when it is not split or nothing unsplit or longer is left |
| SplitRecords.DeleteSaveLoadIff | fdb_record_layer/compat/split.py:83-158 | after a delete it loads back exactly when it is not split or no bare key stands |
| SplitRecords.OmittedSuffixLoads | fdb_record_layer/compat/split.py:60-66 | the format without suffix comes back after a delete |
| SplitRecords.VersionIsSeparate | fdb_record_layer/compat/split.py:161-176 | a version never enters the record's bytes |
| SplitRecords.DeleteLeavesAloneIff | fdb_record_layer/compat/split.py:83-94 | a delete leaves what loads under another key alone on every store exactly when that key does not extend the deleted one |
| SplitRecords.SaveLeavesAloneIff | fdb_record_layer/compat/split.py:39-80 | a save does exactly when the keys differ and neither is the other with a suffix the save writes or the load reads |
| SplitRecords.OthersUntouched | fdb_record_layer/compat/split.py:39-94 | so records under other primary keys of the same width are left alone |
| SplitRecords.SavePossiblySplit | fdb_record_layer/compat/split.py:39-80 | the offset loop writes the specified pairs and returns their number |
| SplitRecords.LoadPossiblySplit | fdb_record_layer/compat/split.py:97-158 | unsplit first, then bare, then the chunks of the range in suffix order |
| SplitRecords.DeletePossiblySplit | fdb_record_layer/compat/split.py:83-94 | exactly the extensions of the key are cleared |
| ConnectionPools.NextIsSafe | fdb_record_layer/utils/pool.py:149-246 | each lock-atomic step keeps every connection in one place, no connection with two holders, and the counters right |
| ConnectionPools.RunIsSafe | fdb_record_layer/utils/pool.py:149-246 | and so does every interleaving |
| ConnectionPools.QuietAfterClose | fdb_record_layer/utils/pool.py:134-147 | closed and with nobody on the way in, nothing is handed out or created again |
| ConnectionPools.EnteredBeforeCloseStillAcquires | fdb_record_layer/utils/pool.py:149-198 | a task past the check still gets a new connection, which then stays in the closed pool |
| ConnectionPools.QuietAfterCloseIff | fdb_record_layer/utils/pool.py:149-246 | a closed pool never hands out or creates again exactly when no task is past the closed check, or there is no room at all |
| ConnectionPools.ConnectionPool.AcquireOnce | fdb_record_layer/utils/pool.py:149-184 | pop until usable, else create while there is room, else wait |
| ConnectionPools.PassTakesLastUsable | fdb_record_layer/utils/pool.py:149-184 | a pass takes the last usable available connection and closes exactly the unusable ones after it; it creates one or waits exactly when none is usable |
| ConnectionPools.ReleasedIsNext | fdb_record_layer/utils/pool.py:200-210 | a connection just released is the next one taken, while it is usable |
| ConnectionPools.ConnectionPool.ReleaseConnection | fdb_record_layer/utils/pool.py:200-210 | back to available, unless it is no longer in use |
| ConnectionPools.ConnectionPool.CloseAll | fdb_record_layer/utils/pool.py:233-246 | every connection is closed |

## Left out

- Byte encodings, transactions and retries of the database, asyncio, protobuf parsing, metrics and logging: foreign code or I/O.
- Float values and comparisons between values of different types: Python raises on some of them; here one total order covers all.
- Query parameters, message-typed field comparisons, the TEXT_CONTAINS comparison kinds, and field keys on message-valued fields.
- The error a SUM index raises on an amount outside 64 bits, and the one a TEXT index raises on a position beyond 65535.
- Passing save_record a type name that differs from the record's own.
- Planner.MatchIndex: residual predicates are told apart by value, where the code compares objects by identity; two equal predicates in one conjunction are both dropped when one is matched, which changes no result.
- MemoGroups.FingerprintKeepsRows: unions and intersections are fingerprinted by their inputs, where the code falls back to their attributes; predicates are compared by value, which joins no more than comparing them as printed.
- PredicatePrinted.SamePrintHolds: how Python prints a value is a parameter, assumed to be told apart from what follows it; names of fields and types have no comma or quote; parameterized and text comparisons are not printed.
- MemoClass.CascadesPlanner.ExploreExpression: the per-member explored flag, group states, required physical properties and the task stack are not modelled; tasks may come in any order. The code pushes no costing task for members that rules add, so that a run finds a winner is stated for tasks that cost them (`CascadesProgress.ImplementedMemberWins`). Cost estimates are parameters.
- MemoClass.Memo.MergeGroups: groups are values in a list, so a member's back reference to its group is not modelled.
- CascadesExpressions: row order is not part of what an expression denotes, so sorts are transparent; intersections compare whole rows.
- OnlineBuilder.OnlineIndexBuilder.Build: no record limit, cancellation or progress counters; each batch is one atomic step.
- OnlineBuilder.OnlineIndexBuilder.BuildBatch: retries and skipped errors.
- MemoClass.Memo.OptimizeInputs: child tasks, and how costs are estimated.
- RankIndex.RankIndexMaintainer.Update: scores that are floats or strings.
- RankIndex.RankIndexMaintainer.Remove: scores that are floats or strings.
- RankIndex.RankIndexMaintainer.GetRank: scores that are floats or strings.
- RankRuns.RunKeepsRank: scores of one integer column; get_by_rank_range takes the first column that names a type for the type column.
- SqlParserClass.Parser.ParsePrimaryExpression: CASE, CAST, EXISTS and subqueries.
- MultiKeySort.Table.ExecuteSelect: aggregates, DISTINCT and result sets.
- TEXT search, rank of floats and strings, time windows, MIN and MAX indexes, COUNT and SUM under online build.
- SqlRoundTrip.RoundTrip: negative integers, floats, named parameters and quoted identifiers do not print as they parse; written as the grammar has them, the last three come back (`SqlRoundTrip.BareRoundTrip`).
- SqlGrammarSound.AcceptsExactlyTheGrammar: CASE, CAST, EXISTS and subqueries; the parser model stops with an error of its own at them.
- SqlLexer.Lexer.NextToken: characters beyond ASCII, whose classes Python takes from Unicode.
- ComparisonExpression with an IN or BETWEEN operator, which the parser never builds.
- Sort keys whose comparison raises.
- MultiKeySort.SortPasses: list.sort is a stable insertion here; only what it returns matters.
- LruCache.LRUCache.Get: expiry, access times and the thread lock.
- ConnectionPools.ConnectionPool.AcquireOnce: idle times and validation are one set of usable connections; waiting, timeouts and wake-ups are steps that may or may not come.
