# Tantylla: ingest, indexing and search, modelled and proved

Tantylla follows a ScyllaDB table's change log into a set of search nodes and answers queries by asking
all of them. This project models the parts that carry its correctness and proves what they promise
together:

- **Documents** (`Store`, `JsonMerge`, `CollectionDeltas`, `Convergence`): what one node's documents should
  be, as a map updated by one operation at a time - the deep JSON merge, collection deltas, expiry, deletes
  and partition deletes. Main results: every list of operations is idempotent, so retries and partial
  attempts are invisible; the merge is characterised by reads at every path and is associative exactly when
  no patch severs an object; upserts reduce to the fold over their writetime maxima, and their order is
  irrelevant exactly when the newest payload covers the others; collection deltas act on every element's
  multiplicity as one of four effects, and a replay of them keeps a list's order exactly under a stated
  condition.
- **The write engine** (`Engine`, `EngineRuns`, `CrashRecovery`, `PrunedReplay`): the node as a class with
  its uncommitted cache, the writer's pending view, the committed index and the wrapping generation counter.
  Main results: the agreement between cache, pending view and index in every state of every run of batches
  (some cut short by a failing `add_document`), commits and prunes with any outcome, and restarts;
  refinement of the plain map, with the exact condition under which one operation refines it; eviction;
  recovery by replay after any number of crashes, prunes included; the exact condition under which a replay
  onto a pruned index is right; invisibility of prunes.
- **Ingest** (`Keys`, `Router`, `ClusteringOrder`, `ClusteringBounds`, `CdcConsumer`, `Batcher`,
  `Forwarding`, `Sharding`, `Reordering`, `Pipeline`, `RangeDelete`): keys and routing, clustering ranges,
  pairing of range-delete bounds, the batch service as a class and as an interleaving protocol, and the
  range delete end to end. Main results: conservation and order of batch items in every interleaving;
  sharding is transparent; the whole path from accepted items through the batches a run settles to what the
  nodes' engines hold is the plain map, whatever the batching, the retries and the commits, and also when
  attempts without a conflict alternate or overtake each other; a range delete removes exactly the covered
  older rows, and on rows the table can hold what it covers is compared with the clustering order, ascending
  and descending.
- **Search** (`Ranking`, `Facets`, `Gateway`, `Paging`): the gateway's scatter-gather and the node's
  grouping and facet loops. Main results: for every number of nodes, the exact condition under which pages
  are always exact, ties included, which for ungrouped requests is 0 < limit + offset < 2^32; which levels a
  grouped request meets; grouping commutes with merging; facets are a homomorphism that ignores node order.
- **Queries and traces** (`SpecialQuery`, `TraceMatcher`): the special-query recogniser is its grammar; the
  greedy trace matcher is complete, has the least cursor and composes over phases.

Code that changes state in place is a class or a method with loops, proved against functions on values; the
laws are lemmas about those functions. Locks are atomic steps. The network, the outcomes of adds, commits and
prunes, clocks, the index schema, the hash of the partition key, lowercasing and the node rankings are
parameters. Proofs are checked by Dafny; the repository's programs were never executed.

## Where the code differs from what is said about it

- The comments at rust/ingestor/src/batch/service.rs:139-148 say that a failed flush activates backpressure
  and that a checkpoint is committed. In the code only the ticker sets the flag, a flush started by `add`
  does not, and nothing commits a checkpoint. The model follows the code (`Batcher.Service.Add`,
  `Batcher.Service.Tick`), and `Batcher.FailedFlushIsForgotten` gives the consequence.
- rust/common/proto/indexer/v1/service.proto:57-59 says that strictly older operations are ignored. The code
  also ignores equal writetimes, and a partition delete looks at no writetime.
- A lookup after a delete falls back to the committed snapshot. `EngineRuns.WriteRefinesIff` says exactly
  when an operation then departs from the plain map, and
  `EngineRuns.UpsertAfterDeleteRevivesOldColumns` shows a run that does.
- Multi-column clustering bounds are checked column by column, each with the inclusiveness of the whole
  bound (rust/ingestor/src/router/core.rs:321-346). A row between the bounds in clustering order may then
  stay. `ClusteringOrder.SliceIsExactIff`, `ClusteringBounds.FirstColumnIsExactIff` and
  `ClusteringBounds.AgreeingColumnIsExactIff` say exactly when none does; `c1 = 1 AND c2 > 5` covers nothing
  at all (`ClusteringBounds.EqualityAndGreaterDeletesNothing`).
- The key query does not read a column's clustering order (rust/ingestor/src/router/utils.rs:246-253),
  though testing/cql-queries/init.cql:46 declares a descending one. A bound of such a column comes in the
  table's order and is tested in the other: `ClusteringBounds.DescendingIntIsExactIff` and
  `ClusteringBounds.DescendingSliceIsExactIff` say exactly when that is right, and
  `ClusteringBounds.DescendingGreaterDeletesTheRest` shows `ck > 5` deleting 3 in place of 7.
- The comment at rust/ingestor/src/router/utils.rs:319-325 promises ScyllaDB's clustering order. Only int
  and bigint values print as bare integers (:148-149); smallint, tinyint, varint and timestamp values print
  in debug form (:158), do not parse, and compare as text (`Keys.DebuggedCompareAsText`). For smallint,
  tinyint and timestamp `Keys.DebugOrderIsRightIff` says exactly when that is the integer order, and
  `Keys.TenSortsBeforeNine` shows that it need not be.
- The retry of a batch whose `add_document` failed (rust/node/src/engine/core.rs:236) does not repair it:
  the cache already holds the document, so the same operation is skipped as outdated and the answer counts
  as delivered, while the document is gone from the writer's view (`Engine.LostUntilNewer`). It lands once a
  commit has evicted the entry, without the columns the document had (`EngineRuns.RetryLandsIff`).
- The comment at rust/ingestor/src/router/core.rs:60-61 says that under backpressure a flush is attempted
  before proceeding. The flush does not lower the flag, so `add` refuses the row whatever the flush does
  (`Forwarding.RouteForward`, `Batcher.OnlyTicksLowerBackpressure`).
- A grouped search without matches asks the index for its best zero documents
  (rust/node/src/engine/core.rs:424-427), on which the collector of tantivy 0.25 panics; the node's answer
  is then a failure. A grouped request at level ALL therefore fails as soon as one node has no match
  (`Paging.AnswersMatch`).
- A flush that fails has already emptied the buffer, so the second of the three flushes before a range delete
  (rust/ingestor/src/router/core.rs:227-237) finds nothing to send and succeeds, unless something was added
  meanwhile (`RangeDelete.PreFlush`).
- The sum limit + offset is taken in 32 bits. The model wraps, as an optimised build does; a build with
  overflow checks stops instead.

## Model

| member | source | states |
|---|---|---|
| JsonMerge.MergeJson | rust/node/src/engine/core.rs:887-897 | the in-place merge loop, entries in any order, computes the functional merge |
| JsonMerge.MergeRead | rust/node/src/engine/core.rs:887-897 | a read at any path of the merge, in terms of reads of the old value and of the patch |
| JsonMerge.MergeReadLeafAndGap | rust/node/src/engine/core.rs:887-897 | a leaf of the patch wins; where the patch is silent the old value is read |
| JsonMerge.MergeIdempotent | rust/node/src/engine/core.rs:887-897 | merging the same patch twice equals once |
| JsonMerge.MergeIsPatchIffCovers | rust/node/src/engine/core.rs:887-897 | the patch replaces the document exactly when it overwrites every key of it, recursively |
| JsonMerge.MergeAssociativeIff | rust/node/src/engine/core.rs:887-897 | merging is associative exactly when the middle value puts no non-object between two objects of which the later leaves something standing |
| JsonMerge.NullIsStored | rust/node/src/engine/core.rs:887-897 | a null in a patch is stored, not treated as a removal |
| JsonMerge.MergeAllForgetsIff | rust/node/src/engine/core.rs:887-897 | a list of patches leaves on a value what it leaves on the empty object exactly when it washes it: some patch is no object, or they overwrite every key, recursively |
| CollectionDeltas.ApplyCollectionDeltas | rust/node/src/engine/core.rs:907-951 | the in-place loop computes tombstone, then remove, then add, delta by delta; non-objects are left alone |
| CollectionDeltas.DeltasMembers | rust/node/src/engine/core.rs:915-949 | after any deltas on any columns, membership of an element is decided by the last delta with an opinion on it |
| CollectionDeltas.DeltasHaveNormalForm | rust/node/src/engine/core.rs:915-949 | any list of deltas acts on each column, as a set, like one composed delta |
| CollectionDeltas.NormalVerdict | rust/node/src/engine/core.rs:915-949 | the composed delta decides every element as the list does |
| CollectionDeltas.DeltasTouchOnlyTheirColumns | rust/node/src/engine/core.rs:916-949 | unnamed columns keep their value; a named column ends up an array, whatever it was |
| CollectionDeltas.DeltasKeepDistinct | rust/node/src/engine/core.rs:938-946 | no list of deltas introduces a duplicate, even if the signals repeat elements |
| CollectionDeltas.DeltasMultiplicity | rust/node/src/engine/core.rs:915-949 | any list of deltas keeps an element's multiplicity, zeroes it, raises it to at least one, or makes it one |
| CollectionDeltas.DeltasReplay | rust/node/src/engine/core.rs:915-949 | replaying a whole list leaves every column with the same elements, each as often, also on arrays that repeat elements |
| CollectionDeltas.OldElementsForgottenIff | rust/node/src/engine/core.rs:915-949 | a column's old elements leave no trace exactly when those never removed are a prefix of what the deltas build from nothing |
| CollectionDeltas.ReplayChangesNothingIff | rust/node/src/engine/core.rs:915-949 | a replay leaves a column exactly as it is, order included, if and only if the never-removed ones come first among the elements the deltas build besides the survivors |
| CollectionDeltas.ReplayMayReorder | rust/node/src/engine/core.rs:915-949 | an instance: a pair of deltas whose replay turns [b, a] into [a, b] |
| Store.ExpiryIsExact | rust/node/src/engine/core.rs:199-205 | the saturating expiry is min(2^63-1, writetime + max(0, ttl) * 10^6) for all inputs |
| Store.UpsertStores | rust/node/src/engine/core.rs:177-233 | an upsert no newer than the stored document changes nothing; a newer one changes one id and stores its own writetime, partition fallback and exact expiry |
| Store.UpsertMerges | rust/node/src/engine/core.rs:186-197 | payload leaves are readable at their paths afterwards, and what the payload omits is kept |
| Store.UpsertAppliesDeltas | rust/node/src/engine/core.rs:193-197 | collection signals act on the merged document, the last signal about an element decides it, other columns keep the merged value |
| Store.BodyForgetsIff | rust/node/src/engine/core.rs:186-197 | an upsert over an old document equals one over nothing exactly when it overwrites every old column, by covering it or by its deltas; without deltas, exactly when the payload covers the old body |
| Store.ApplyAllAt | rust/node/src/engine/core.rs:173-273 | a batch acts on every id independently, partition deletes included |
| Store.OlderRunsMeet | rust/node/src/engine/core.rs:178-270 | a run that ends older than it began was reset by a deletion, and any no-newer document is reset by the same one |
| Store.BatchIdempotent | rust/node/src/engine/core.rs:173-273 | every mix of upserts, deletes and partition deletes is idempotent when ids determine partitions |
| Store.PrefixThenBatch | rust/node/src/engine/core.rs:173-273 | a crash after any prefix followed by the whole batch equals the batch |
| Store.RetriesAreInvisible | rust/ingestor/src/batch/service.rs:317-355 | any number of partial attempts before a complete one leave what the complete one alone leaves |
| Store.RetryNeedsKeyedIds | rust/node/src/engine/core.rs:245-258 | without ids determining partitions a replay is visible, on a concrete input |
| Convergence.RunIsFoldOfRecords | rust/node/src/engine/core.rs:177-221 | any run of upserts to one id is the merge fold over its left-to-right writetime maxima |
| Convergence.RunEndsAtNewest | rust/node/src/engine/core.rs:178-184 | it ends at the greatest writetime it met |
| Convergence.NewestImageWins | rust/node/src/engine/core.rs:177-221 | if the newest payload covers the others, it is what any order of them leaves, with its own expiry |
| Convergence.OrderIrrelevantIff | rust/node/src/engine/core.rs:177-221 | every permutation of upserts with one newest leaves the same document exactly when the newest payload covers every other payload |
| Convergence.FlatImagesConvergeIff | rust/ingestor/src/router/utils.rs:43-45 | for row images, whose null columns and unset TTL are left out: exactly when the newest has every column of the others |
| Convergence.FullImagesConverge | rust/node/src/engine/core.rs:177-221 | in particular images of one column set, the newest of them strictly newest, leave the same document under every permutation |
| Convergence.PartialImagesDiverge | rust/node/src/engine/core.rs:178-184 | an instance that does not converge: a late older image with another column is dropped whole |
| Engine.Engine.constructor | rust/node/src/engine/core.rs:122-151 | opening an index starts with an empty cache, generation 0 and nothing pending |
| Engine.Engine.FindCachedOrIndexed | rust/node/src/engine/core.rs:691-754 | the cache answers first, then the committed snapshot |
| Engine.Engine.ProcessUpsert | rust/node/src/engine/core.rs:177-244 | the upsert arm on cache and writer, including a document the schema refuses and one the writer fails to add |
| Engine.Engine.ProcessDelete | rust/node/src/engine/core.rs:245-258 | the delete arm |
| Engine.Engine.ProcessPartitionDelete | rust/node/src/engine/core.rs:259-270 | the partition-delete arm |
| Engine.Engine.ProcessBatch | rust/node/src/engine/core.rs:154-280 | the whole new state of a batch; it fails exactly when it reaches the failing add, with what came before applied, and otherwise processed + skipped accounts for every operation |
| Engine.ProcessedIff | rust/node/src/engine/core.rs:178-271 | which operation counts as processed: an upsert that is newer and whose document the writer has afterwards, a newer delete, every partition delete |
| Engine.SkippedCountIs | rust/node/src/engine/core.rs:170-279 | the skipped count is the number of the other operations |
| Engine.Engine.CommitTick | rust/node/src/engine/core.rs:641-656 | a successful commit publishes the pending view and evicts by generation; a failed one only steps the counter back; both wrap |
| Engine.Engine.PruneTick | rust/node/src/engine/core.rs:668-685 | a prune removes what expired at or before now from the pending view and commits it, leaving the cache alone; a failed query changes nothing, a failed commit publishes nothing |
| Engine.Engine.ListDocumentIds | rust/node/src/engine/core.rs:761-797 | cached and indexed ids of a partition, each once |
| Engine.WriteAllAppend | rust/node/src/engine/core.rs:173-273 | where a stream is cut into batches does not matter |
| Engine.WriteKeepsAgreement | rust/node/src/engine/core.rs:154-280 | every operation keeps the agreement of cache, pending view and index |
| Engine.FaultyBatchKeepsAgreement | rust/node/src/engine/core.rs:173-280 | so does every batch, also one that ends at a failing add |
| Engine.CommitKeepsAgreement | rust/node/src/engine/core.rs:632-660 | so does every commit, ok or failed, whatever is evicted |
| Engine.PruneKeepsAgreement | rust/node/src/engine/core.rs:662-689 | so does every prune, whichever part of it fails |
| Engine.LostUntilNewer | rust/node/src/engine/core.rs:177-244 | after a failed add no retry brings the document back: whatever is no newer is skipped until the cache entry goes |
| Engine.FailedAddLosesDocument | rust/node/src/engine/core.rs:177-244 | so the next commit publishes an index without it |
| Engine.NewerUpsertRepairs | rust/node/src/engine/core.rs:177-244 | a newer upsert of the id leaves what it would have left had the add not failed |
| EngineRuns.RetryLandsIff | rust/node/src/engine/core.rs:646-653 | the retry lands exactly once a successful commit has evicted the cache entry, and then as on an id without a document |
| EngineRuns.RunKeepsAgreement | rust/node/src/engine/core.rs:154-280 | every state of every run of batches, commits, prunes and restarts keeps the agreement |
| EngineRuns.WriteRefinesIff | rust/node/src/engine/core.rs:177-258 | exactly when one operation takes the pending view where the plain map goes, in terms of what a lookup finds and whether the operation forgets it |
| EngineRuns.RunRefinesSpec | rust/node/src/engine/core.rs:154-280 | over coherent runs, faults and prunes included, the pending view is the plain map and the index is the map at the last successful commit |
| EngineRuns.LookupsAreCurrent | rust/node/src/engine/core.rs:691-754 | along coherent runs lookups see the current documents, except where something that is gone left remains |
| EngineRuns.AvoidingRunsAreCoherent | rust/node/src/engine/core.rs:691-754 | runs, prunes and faults included, are coherent if each upsert avoids ids deleted since the last successful commit, ids whose last document could not be added, and documents found expired by a prune |
| EngineRuns.RunKeepsKeyedState | rust/node/src/engine/core.rs:154-280 | every run keeps documents in the partition their id determines |
| EngineRuns.UpsertAfterDeleteRevivesOldColumns | rust/node/src/engine/core.rs:245-258 | a row deleted and rewritten between two commits gets an old column back |
| CrashRecovery.ApplyAllUnexpired | rust/node/src/engine/core.rs:395-401 | on documents that outlive the prunes, applying a log commutes with hiding what has expired |
| CrashRecovery.IndexIsPrefix | rust/node/src/engine/core.rs:641-656 | while a process works through the log the index holds a prefix of what is done and the pending view all of it, apart from what expires by the last prune |
| CrashRecovery.CrashAndReplay | rust/node/src/engine/core.rs:122-151 | a crash between steps, then a replay of the log in any batches, commits and prunes, leaves what an uninterrupted node holds, apart from what expires by the last prune |
| CrashRecovery.CrashAndReplayWithoutPrunes | rust/node/src/engine/core.rs:122-151 | without prunes it leaves exactly the plain map |
| CrashRecovery.CleanRunsAreCoherent | rust/node/src/engine/core.rs:691-754 | a log that never upserts an id after an operation that can remove it is run coherently, however it is batched, committed and pruned |
| CrashRecovery.CrashAndReplayOfCleanLogs | rust/node/src/engine/core.rs:122-151 | for such a log, crash and replay need no condition on the engine's states |
| CrashRecovery.ReplayAfterCrashes | rust/node/src/engine/core.rs:122-151 | the same after any number of crashes, each in the middle of a replay of its own and after any failing adds it had not yet published |
| CrashRecovery.ReplayAfterCrashesOfCleanLogs | rust/node/src/engine/core.rs:122-151 | and without a condition on the engine's states for logs that never reuse a removed id |
| PrunedReplay.RunsMeetIff | rust/node/src/engine/core.rs:177-270 | operations in writetime order leave on a document what they leave on nothing exactly when one of them removes it or their payloads wash it |
| PrunedReplay.ReplayOntoPrunedIff | rust/node/src/engine/core.rs:670-675 | a whole log applied again after a prune between its two parts gives the same documents exactly when the second part removes or washes every expired document the first part makes again |
| PrunedReplay.PrunedReplayIff | rust/node/src/engine/core.rs:122-151 | the same for an engine that runs the first part, prunes, runs the second and dies before publishing it |
| PrunedReplay.PrunedPairReplayIff | rust/node/src/engine/core.rs:177-221 | for two upserts of one id, deltas included: exactly when the second owes nothing to the expired first |
| PrunedReplay.ReplayRevivesExpiredColumn | rust/node/src/engine/core.rs:670-675 | an instance: a replay brings back a pruned column |
| EngineRuns.GenerationCountsCommits | rust/node/src/engine/core.rs:642-656 | the generation is the number of successful minus failed committer ticks in 64 bits |
| EngineRuns.CacheEntriesAgeOut | rust/node/src/engine/core.rs:646-653 | an entry is evicted once more commits have succeeded than failed since it was written, wrap-around included |
| EngineRuns.PruneNoticedIff | rust/node/src/engine/core.rs:670-675 | removing what has expired is noticed exactly by a search that could still see some of it |
| EngineRuns.PruneIsInvisible | rust/node/src/engine/core.rs:395-401 | a prune is a plain commit to every search that starts no earlier, and nothing if nothing was pending |
| Keys.SplitRecoversIff | rust/ingestor/src/router/core.rs:98-106 | splitting a joined key gives the components back exactly when there is one and none holds a colon |
| Keys.JoinOfSplit | rust/ingestor/src/router/core.rs:314-319 | splitting loses nothing |
| Keys.IdsAreInjective | rust/ingestor/src/router/core.rs:98-106 | colon-free component lists have equal ids only if equal |
| Keys.ParsePrintInt | rust/ingestor/src/router/utils.rs:148-149 | parsing a printed 64-bit integer gives it back |
| Keys.ParseI64Iff | rust/ingestor/src/router/utils.rs:331-332 | the integer parser accepts exactly the signed spellings of 64-bit integers, leading zeros included |
| Keys.ParseU8Iff | rust/node/src/engine/core.rs:867 | the parser of the fuzzy distance accepts exactly the spellings of the numbers up to 255, with or without a plus |
| Keys.ComparePrintedIntegers | rust/ingestor/src/router/utils.rs:330-346 | printed 64-bit integers are ordered exactly as the integers |
| Keys.TextOrderIsTotal | rust/ingestor/src/router/utils.rs:372-375 | the textual order is a strict total order |
| Keys.TextOrderIsDictionary | rust/ingestor/src/router/utils.rs:375 | and it is the dictionary order: a string comes before another if it is a proper prefix or has the smaller code point where they first differ |
| Keys.CqlOrderIsTotal | rust/ingestor/src/router/utils.rs:326-377 | on the values a column of any of these types prints, the comparison is a strict total order |
| Keys.DebuggedCompareAsText | rust/ingestor/src/router/utils.rs:143-160 | on every type but int and bigint printed values compare as text, since none of them parses |
| Keys.DebuggedIntegersCompareAsText | rust/ingestor/src/router/utils.rs:330-371 | the order of smallint, tinyint and timestamp values, by their leading digits |
| Keys.DebugOrderIsRightIff | rust/ingestor/src/router/utils.rs:319-325 | exactly when that is the order of the integers |
| Keys.TenSortsBeforeNine | rust/ingestor/src/router/utils.rs:330-337 | in a smallint column 10 sorts before 9 |
| Keys.MixedComparisonCycles | rust/ingestor/src/router/utils.rs:330-346 | on other strings the textual fallback closes a cycle |
| Router.RowIdDeterminesPartition | rust/ingestor/src/router/core.rs:83-106 | a row's id determines its partition key |
| Router.RowIdsAreInjective | rust/ingestor/src/router/core.rs:98-106 | rows have the same id only if they have the same key values |
| Router.RowIdParts | rust/ingestor/src/router/core.rs:98-106 | an id's components are the row's key values, missing clustering values reading `null` |
| Router.StartBoundIsOwned | rust/ingestor/src/router/core.rs:154-197 | a start bound keeps the row's own values and goes to the node that owns the row's partition |
| Router.ForwardedItemsAreKeyed | rust/ingestor/src/router/core.rs:77-143 | forwarded operations carry the partition their id determines and go to the node that owns it |
| Router.ForwardedRowEffect | rust/ingestor/src/router/common.rs:42-69 | what each kind of change-log row does to the documents once forwarded and applied |
| Router.ForwardedCollections | rust/ingestor/src/router/core.rs:122-132 | what a newer write leaves in a collection column of any document: the row's last signal about an element decides, otherwise the merged payload; a postimage signals nothing |
| Forwarding.RouteForward | rust/ingestor/src/router/core.rs:77-90 | under backpressure the row is refused whatever its own flush does; otherwise its item is accepted and `add` answers |
| Router.IsCovered | rust/ingestor/src/router/core.rs:313-349 | the early-return loop decides coverage of one id |
| Router.FilterDocIds | rust/ingestor/src/router/core.rs:301-351 | the filter keeps the covered ids in order |
| Router.CoveredByOneColumn | rust/ingestor/src/router/core.rs:321-346 | with one clustering column, coverage is lying between the bounds |
| Router.IntegerBounds | rust/ingestor/src/router/core.rs:324-345 | on int and bigint columns the four bound kinds are the integer comparisons |
| Router.TextBounds | rust/ingestor/src/router/core.rs:324-345 | on text columns they are those of the dictionary order |
| Router.AdjacentRangesPartition | rust/ingestor/src/router/core.rs:324-345 | two adjacent one-column ranges split the range they form together |
| ClusteringOrder.InRangeIsBetween | rust/ingestor/src/router/core.rs:321-346 | where the columns on which the bounds differ are ascending, a covered row lies between the bounds in clustering order |
| ClusteringOrder.SliceCoverage | rust/ingestor/src/router/core.rs:321-346 | with equal leading values and bounds on the next column, what the test covers and what it should cover, in the column's direction |
| ClusteringOrder.SliceIsExactIff | rust/ingestor/src/router/core.rs:321-346 | with that column ascending, such a delete covers exactly the table's rows between its bounds when it has no prefix, both bounds are inclusive or no value of the column lies between them, and in no other case |
| ClusteringOrder.ExclusivePrefixCoversNothing | rust/ingestor/src/router/core.rs:327-333 | bounds that agree on a column, one of them exclusive, cover no row |
| ClusteringBounds.EqualityAndGreaterDeletesNothing | rust/ingestor/src/router/core.rs:327-333 | so `c1 = 1 AND c2 > 5` covers no row, and (1, 9) is one it should |
| ClusteringBounds.DescendingSliceIsExactIff | rust/ingestor/src/router/utils.rs:246-253 | with that column descending: exactly when its two bounds are equal or absent, or no value is covered or ought to be |
| ClusteringBounds.DescendingIntIsExactIff | rust/ingestor/src/router/utils.rs:246-253 | on a descending int column: no bounds, equal bounds, or two excluded neighbours, and never with one bound |
| ClusteringBounds.DescendingGreaterDeletesTheRest | rust/ingestor/src/router/utils.rs:246-253 | so `ck > 5` deletes 3 and keeps 7 |
| ClusteringBounds.FirstColumnIsExactIff | rust/ingestor/src/router/core.rs:321-346 | when the first components differ: exactly when rows strictly between them all pass on the other columns, if there are any, and rows that share a bound's first component pass exactly when they lie on the right side of the rest of it |
| ClusteringBounds.TwoIntColumnsAreExactIff | rust/ingestor/src/router/core.rs:321-346 | the same for two int columns, as a condition on the four numbers and the two flags |
| ClusteringBounds.WideIsExactIff | rust/ingestor/src/router/core.rs:321-346 | where a value of the column lies strictly between the first components, the delete is exact exactly when the bounds on the other columns exclude no row |
| ClusteringBounds.AgreeingColumnIsExactIff | rust/ingestor/src/router/core.rs:321-346 | leading columns on which inclusive bounds agree can be left out of account: the delete is exact exactly when the rest of it is |
| ClusteringBounds.TwoColumnsAreNotLexicographic | rust/ingestor/src/router/core.rs:321-346 | an instance: (2, 9) lies between (1, 5) and (3, 7) and stays |
| RangeDelete.DeletesRun | rust/ingestor/src/router/core.rs:251-264 | the enqueued deletes remove the listed ids that are older, and stale listed ids do no harm |
| RangeDelete.ListedCoversPartition | rust/node/src/engine/core.rs:761-797 | nothing live is missing from a partition's list and nothing foreign is in it |
| RangeDelete.ListedIff | rust/node/src/engine/core.rs:761-797 | a partition's list is exactly its ids that a lookup finds, stale ones included |
| RangeDelete.ItemsAreDeletes | rust/ingestor/src/router/core.rs:251-264 | what a flush of the enqueued items sends to the node are these deletes, in order |
| RangeDelete.ItemsGoToOwner | rust/ingestor/src/router/core.rs:251-264 | each item deletes its id with the start row's time on the node that owns the row's partition |
| RangeDelete.RangeDeleteLands | rust/ingestor/src/router/core.rs:205-267 | once the deletes have reached the node, between any commits and operations on other partitions, the partition holds all but its covered documents older than the start row, and the others are untouched by it |
| RangeDelete.CommitRangeDelete | rust/ingestor/src/router/core.rs:205-267 | the ids it finds are the listed covered ones; what it enqueues, when it succeeds, and how backpressure, a failing flush or an unreachable node end it |
| RangeDelete.Enqueue | rust/ingestor/src/router/core.rs:251-264 | the enqueued items are a prefix, all of them on success |
| RangeDelete.PreFlush | rust/ingestor/src/router/core.rs:227-237 | the flushes before the listing are one flush: the first empties the buffer whether it succeeds or not |
| RangeDelete.IntegerRowSurvives | rust/ingestor/src/router/core.rs:205-351 | with one int or bigint clustering column, which rows survive a pair of bound rows, open sides included, in terms of integers and writetimes |
| RangeDelete.TextRowSurvives | rust/ingestor/src/router/core.rs:205-351 | the same with one text clustering column, in the dictionary order |
| CdcConsumer.Consumer.ConsumeCdc | rust/ingestor/src/cdc/consumer.rs:26-87 | one row's effect on the pending start bound and its outcome |
| CdcConsumer.RowsByOperation | rust/ingestor/src/cdc/consumer.rs:26-87 | whatever is pending, preimages alone are skipped, start bounds alone stored, and every write, delete or postimage yields one item with its own key, time, kind and contents |
| CdcConsumer.StreamForwardsItsData | rust/ingestor/src/cdc/consumer.rs:79-85 | the forwarded items of a stream are those of its data rows, one each and in order |
| CdcConsumer.OnlyDataIsForwarded | rust/ingestor/src/cdc/consumer.rs:43-86 | bounds and preimages in between make no difference to them |
| CdcConsumer.EndsPairWithLatestStart | rust/ingestor/src/cdc/consumer.rs:65-77 | an end bound deletes with the latest unconsumed start and is an error exactly when there is none |
| CdcConsumer.OnlyEndsGoUnmatched | rust/ingestor/src/cdc/consumer.rs:43-86 | unmatched ends are the only pairing errors |
| CdcConsumer.StartsAreUsedOnce | rust/ingestor/src/cdc/consumer.rs:55-69 | no start bound serves two end bounds |
| CdcConsumer.PairedStreamsNeverFail | rust/ingestor/src/cdc/consumer.rs:19-21 | a stream of adjacent pairs never fails and deletes once per pair with the pair's own bounds |
| Batcher.GroupByNode | rust/ingestor/src/batch/service.rs:168-193 | each node's batch is the order-preserving projection of the taken items; unparsable ones are skipped |
| Batcher.SendBatchWithRetry | rust/ingestor/src/batch/service.rs:303-363 | the first answered attempt of three, if any |
| Batcher.SendAll | rust/ingestor/src/batch/service.rs:198-274 | every node is tried and exactly the undelivered ones are reported |
| Batcher.DeliveredIff | rust/ingestor/src/batch/service.rs:204-257 | a batch is delivered exactly when the first answer among three attempts accounts for all its operations |
| Batcher.DeliveredIffAnswered | rust/ingestor/src/batch/service.rs:204-227 | since a node accounts for every operation, delivered means some attempt was answered |
| Batcher.Service.Flush | rust/ingestor/src/batch/service.rs:149-299 | the whole new state of a flush, and Ok exactly when every node batch was delivered |
| Batcher.Service.Add | rust/ingestor/src/batch/service.rs:108-137 | refusal under backpressure, the push, and the flush of a full buffer, which sets no flag |
| Batcher.Service.Tick | rust/ingestor/src/batch/service.rs:94-103 | backpressure afterwards is exactly the failure of this flush |
| Batcher.FlushIsRun | rust/ingestor/src/batch/service.rs:149-299 | an uninterrupted flush is one run of the interleaving protocol |
| Batcher.TickIsRun | rust/ingestor/src/batch/service.rs:94-103 | so is an uninterrupted tick, ending with its own flush's result |
| Batcher.TakeConserves | rust/ingestor/src/batch/service.rs:150-193 | the batches and the unparsable texts are exactly what a flush took |
| Batcher.RunsConserveAndOrder | rust/ingestor/src/batch/service.rs:108-299 | in every interleaving items are conserved, flights take them in order and batches are projections |
| Batcher.AcceptedItemsAreSomewhere | rust/ingestor/src/batch/service.rs:108-299 | from the start, every accepted item is buffered, in flight, acknowledged, given up or malformed, counted exactly |
| Batcher.OnlyTicksLowerBackpressure | rust/ingestor/src/batch/service.rs:94-103 | until a tick lowers it, backpressure stays and nothing is accepted |
| Batcher.RunsSendEachBatchOnce | rust/ingestor/src/batch/service.rs:149-299 | in every interleaving each flight has one batch for each of its target nodes, in flight or settled, and there is no other |
| Batcher.FlushSettlesWhatItTook | rust/ingestor/src/batch/service.rs:198-274 | a flush acknowledges an item as often as it took it if the batch of its node is delivered, and otherwise gives it up as often |
| Batcher.FailedFlushIsForgotten | rust/ingestor/src/batch/service.rs:94-103 | an item is given up exactly when its node batch is not delivered; the ticker raises backpressure and its next empty tick lowers it |
| Sharding.TargetIsOwner | rust/ingestor/src/router/utils.rs:301-317 | routing by column values is routing by the partition-key string |
| Sharding.ShareIsOwned | rust/ingestor/src/router/core.rs:77-106 | a node that receives its own subsequence holds exactly the single-node documents it owns |
| Sharding.ShardingIsTransparent | rust/ingestor/src/router/core.rs:77-106 | the nodes' documents are disjoint and together are what one node would hold, for any hash and node count |
| Pipeline.ProjectIsShare | rust/ingestor/src/batch/service.rs:168-187 | grouping by target gives every node its share of the operations |
| Reordering.IndependentBatchesCommute | rust/node/src/engine/core.rs:173-273 | two batches in which no upsert meets another operation on its document leave the same documents in either order |
| Reordering.LateUpsertRevives | rust/node/src/engine/core.rs:177-270 | on any documents, exactly when an upsert and a removal of its row may come in either order; in every other case in which the removal takes effect the late upsert brings the row back |
| Pipeline.RetriesApplyOnce | rust/ingestor/src/batch/service.rs:303-363 | any attempts at a batch of which the last is complete apply it once |
| Pipeline.LatestToTheEnd | rust/ingestor/src/batch/service.rs:198-274 | all attempts at the latest flight's batch may as well have come last, however they alternate with others they do not conflict with |
| Pipeline.TriesAreProjection | rust/ingestor/src/batch/service.rs:198-274 | attempts at a node's batches, each finished, alternating and overtaking harmlessly, are one projection of the accepted items |
| Pipeline.PipelineIsTransparent | rust/ingestor/src/batch/service.rs:108-363 | after any run of the batch protocol that leaves nothing buffered, in flight or given up, the engines of nodes that applied the attempts as they arrived, between any commits, hold together exactly the documents of one node applying the accepted items in order |
| Pipeline.CleanNodeHolds | rust/ingestor/src/batch/service.rs:303-363 | an engine does so if its attempts, retries included, never upsert an id after an operation that can remove it |
| Ranking.GroupByPartition | rust/node/src/engine/core.rs:429-446 | the grouping loop keeps the first hit of each partition |
| Ranking.FirstOfEachMeaning | rust/node/src/engine/core.rs:429-446 | exactly the first hits of their partitions are kept |
| Ranking.GroupingKeepsTheBest | rust/node/src/engine/core.rs:429-431 | in a ranking the kept hit is its partition's best |
| Ranking.GroupingKeepsEveryPartition | rust/node/src/engine/core.rs:429-446 | every partition is represented |
| Ranking.FirstOfEachDistinct | rust/node/src/engine/core.rs:443-445 | no partition is kept twice |
| Ranking.StableSortUnique | rust/gateway/src/querier/core.rs:133-137 | the sorted list is the only one that is descending and stable |
| Ranking.PageHolds | rust/gateway/src/querier/core.rs:142-146 | a page holds the hits from its offset on, as many as there are up to its limit |
| Ranking.TakeOfSort | rust/gateway/src/querier/core.rs:54-62 | the best k of all lists need only the best k of each |
| Ranking.FirstOfEachMerge | rust/node/src/engine/core.rs:415-417 | grouping commutes with merging lists that share no partition |
| Gateway.NodeSearch | rust/node/src/engine/core.rs:403-629 | a node's page, total and facet counts, and what it refuses: limit 0 and grouped searches without matches |
| Gateway.Gather | rust/gateway/src/querier/core.rs:68-102 | the aggregation loop: hits in node order, totals, errors and summed facets |
| Gateway.SuccessesDecide | rust/gateway/src/querier/core.rs:104-131 | the success count decides exactly as the consistency level says |
| Gateway.ScatterGather | rust/gateway/src/querier/core.rs:35-171 | Ok exactly when the level is met; the hits of the stable sort from the offset on, up to the limit; totals and facet sums of the answering nodes |
| Gateway.TotalIsMatches | rust/gateway/src/querier/core.rs:81 | the total is the number of matching documents of the answering nodes |
| Gateway.LongestIsGreatest | rust/gateway/src/querier/core.rs:82 | the duration is the longest of the answers' |
| Gateway.ErrorsAreFailures | rust/gateway/src/querier/core.rs:94-101 | the reported errors are those of the nodes that failed, one for each |
| Gateway.TopKIsExact | rust/gateway/src/querier/core.rs:54-62 | the page equals the page of the stable sort of every answering node's full list, ties included |
| Paging.AlwaysExactIff | rust/gateway/src/querier/core.rs:54-62 | for every number of nodes: they always answer exactly, grouped requests compared with the first hit of each partition in the global ranking, if and only if 0 < limit + offset < 2^32, or the request is grouped and the wrapped limit reaches the cap or the page begins beyond all they can hold |
| Paging.AnswersMatch | rust/node/src/engine/core.rs:424-427 | a grouped request meets level ANY exactly when some node has a match and level ALL exactly when every node has one; an ungrouped one always meets both |
| Paging.WrapLosesPage | rust/gateway/src/querier/core.rs:58-59 | in every other case with a sum above 2^32, nodes without a common partition whose page a wrapped limit loses |
| Paging.PagesFollowTheRanking | rust/gateway/src/querier/core.rs:133-146 | one page after the other gives the global ranking from its beginning, each hit once and in order |
| Paging.ZeroIsRefused | rust/node/src/service/core.rs:78-82 | a sum of 0 or of exactly 2^32 is refused by every node, so the request fails at every level |
| Gateway.GroupingCommutes | rust/node/src/engine/core.rs:415-417 | sorting the grouped lists is grouping the sorted lists |
| Gateway.GroupedPageIsExact | rust/gateway/src/querier/core.rs:133-146 | a grouped page is the page of first-per-partition over the global ranking |
| Gateway.CapHarmlessIff | rust/node/src/engine/core.rs:422-427 | the cap is harmless exactly on rankings it does not cut |
| Gateway.OwnedShardsShareNoPartition | rust/node/src/engine/core.rs:415-417 | routing by partition key is what keeps partitions on one node |
| Facets.CountField | rust/node/src/engine/core.rs:577-599 | a string, number or boolean raises the bucket of its text by one, an array each bucket by the number of its elements of that text, null and objects none |
| Facets.NodeCounts | rust/node/src/engine/core.rs:549-602 | the facet loops count every document's contribution for every requested field |
| Facets.NodeTallyIsRequested | rust/node/src/engine/core.rs:574-600 | a field requested n times is counted n times over |
| Facets.TotalIsPlaces | rust/node/src/engine/core.rs:549-602 | a bucket's total is the number of places, by document and position, at which its value stands |
| Facets.SortedBuckets | rust/node/src/engine/core.rs:609-613 | the bucket list is a count-descending permutation of the map |
| Facets.FacetLists | rust/gateway/src/querier/core.rs:150-163 | one such list for each field |
| Facets.FacetSumOfLists | rust/gateway/src/querier/core.rs:150-163 | the lists say exactly what the maps counted |
| Gateway.MergeFacets | rust/gateway/src/querier/core.rs:87-92 | merging adds a node's counts field by field and value by value |
| Gateway.FacetsAreGlobal | rust/gateway/src/querier/core.rs:85-92 | the merged count is the count over all answering nodes' matching documents together |
| Gateway.FacetsCountPlaces | rust/gateway/src/querier/core.rs:85-92 | the merged count is the number of such places over all answering nodes' documents, once for each time the field is requested |
| Gateway.FacetsIgnoreNodeOrder | rust/gateway/src/querier/core.rs:76-92 | no count depends on the order of the nodes |
| SpecialQuery.TrimIff | rust/node/src/engine/core.rs:827 | trimming takes away all the white space around a text and nothing else |
| SpecialQuery.PrefixQueriesAreTheGrammar | rust/node/src/engine/core.rs:823-859 | a prefix query is built exactly for `document.<path>:<token>*` with white space around it |
| SpecialQuery.FuzzyQueriesAreTheGrammar | rust/node/src/engine/core.rs:861-878 | a fuzzy query is built exactly for `document.<path>:<token>~<N>` with N a spelling of a number up to 2 |
| SpecialQuery.RenderedPatternsAreRecognised | rust/node/src/engine/core.rs:800-878 | rendering a pattern and recognising it gives path, lowercased token and distance back |
| TraceMatcher.MatchSequenceFrom | rust/testing/src/trace/core.rs:282-305 | succeeds exactly when some increasing placement exists, returns its events and the least possible cursor |
| TraceMatcher.OneStepIff | rust/testing/src/trace/core.rs:290-302 | a step is found exactly when an event of its kind follows, from its source if it names one |
| TraceMatcher.GreedyStaysAhead | rust/testing/src/trace/core.rs:290-302 | the greedy scan is at or before every placement, step by step |
| TraceMatcher.PhasesCompose | rust/testing/src/trace/core.rs:166-190 | matching one phase and then the next from the returned cursor is matching both at once |
| TraceMatcher.MatchesAreStable | rust/testing/src/trace/core.rs:184-191 | a match found in a snapshot is found unchanged in every later one |

## Left out

- Tantivy itself: the query parser, matching, scoring, segments and the delay of the reader reload. A node's ranking is given, searches see exactly what was committed last, and documents survive storage unchanged.
- Query expansion strings (rust/node/src/engine/core.rs:326-360): their meaning is the query parser's.
- Floating point: scores are reals that are never not-a-number, boosts are absent, and the float and double clustering types are not compared.
- Widths of counters and totals: hit totals, facet counts and batch counts are unbounded naturals; only the generation, writetimes, expiry, limit and offset have their machine ranges.
- The conversion of CQL values to JSON and to key strings, base64, time UUIDs and null partition-key columns: rows carry key strings and converted payloads.
- Map-typed columns: their added elements arrive as an object, which the node ignores; the model has such a delta add nothing.
- The number spelling of JSON floats in facets: JSON numbers are integers.
- The scylla-cdc reader, its checkpoints, gRPC, HTTP, timers, logging, process start-up and the test cluster.
- `batch_limit`, the retry count and the contention of `try_write`: the defaults are constants and a tick that does not get the lock is no step.
- A lookup whose index search fails, which finds nothing (rust/node/src/engine/core.rs:701-703).
- Reordering.IndependentBatchesCommute: two upserts of one id count as a conflict although some commute; `Convergence.OrderIrrelevantIff` is the exact condition for upserts without deltas.
- RangeDelete.CommitRangeDelete: nothing else uses the batch service while it runs.
- RangeDelete.RangeDeleteLands: no other operation on the partition comes between the listing and the deletes, and no prune; rows that a failed flush gave up, or that another flush holds in flight, are not listed.
- Pipeline.PipelineIsTransparent: says nothing of runs with batches given up, takes every attempt for a plain prefix, which one ended by a failing `add_document` is not (`Engine.LostUntilNewer`), and has no prunes.
- RangeDelete.IntegerRowSurvives: one ascending clustering column; several columns and descending ones are the subject of `ClusteringOrder` and `ClusteringBounds`.
- ClusteringOrder.InRangeIsBetween: a column's order is the one the comparison gives its values, reversed if the column is descending. For smallint, tinyint, varint and timestamp that is not ScyllaDB's (`Keys.DebugOrderIsRightIff`), and uuids of different versions and the types left out of `Keys.ColumnType` (timeuuid, inet, blob, date, time, decimal, float, double) are not compared.
- The debug forms of timestamps, counters and varints are those the value types of scylla-cql 1.4 derive.
- ClusteringBounds.WideIsExactIff: the columns after the first are ascending where the bounds differ on them; `ClusteringBounds.FirstColumnIsExactIff` has no such condition.
- CrashRecovery.CrashAndReplay: logs that write onto what a prune has removed, which are the subject of `PrunedReplay`.
- PrunedReplay.PrunedReplayIff: one prune, and operations of the second part that are in writetime order on the ids concerned and carry no collection deltas there; `PrunedReplay.PrunedPairReplayIff` has the deltas.
