# dllb: a verified model

dllb is a document, graph and vector database over one ordered key-value store.
This project models the parts of it whose correctness is hard to see from the
code, and proves them with Dafny 4.11. `dafny verify dfyconfig.toml` checks
everything.

Six components are modelled.

* **Secondary indexes.** Documents, index entries, index definitions and edges
  live under one sorted keyspace (`storage.dfy`, `keys.dfy`). Indexed values are
  encoded, escaped, terminated and followed by a record id
  (`index_encoding.dfy`); bounds become half-open key ranges (`index_scan.dfy`);
  every write moves documents and entries in one batch (`index_state.dfy`,
  `index_transitions.dfy`, `collection.dfy`); a planner picks an index for a
  WHERE tree (`planner.dfy`); what its conditions select is pinned against the indexes,
  against complements and, for integers beside floats, against exact numbers
  (`filters.dfy`, `comparisons.dfy`); SELECT, COUNT, UPDATE, DELETE, DEFINE/REMOVE INDEX
  and BEGIN BATCH run on top (`query_exec.dfy`, `index_ddl.dfy`, `batch.dfy`,
  `batch_effects.dfy`, `executor.dfy`), and `commands.dfy` follows whole runs of
  them. Two invariants meet there. Every entry the stored documents derive is in
  the index region, whatever ran (`Covered`); and the region holds nothing else
  (`Consistent`) until a batch or a redefinition leaves a stale entry, with the
  exact condition for each. Every read is specified on any region, to the last
  repetition, by the entries it holds (`query_exec.dfy`); `index_answers.dfy` compares
  it with scanning and filtering, leftover entries included.
* **Edges and traversal.** Mirrored forward and reverse edge keys, scans, walks
  and the SELECT frontier (`edges.dfy`, `traversal.dfy`).
* **Graph analytics.** Louvain (`louvain.dfy`, `louvain_run.dfy`), label
  propagation (`label_propagation.dfy`), the names of their communities
  (`representatives.dfy`, `loyalty.dfy`, `forests.dfy`, `stars.dfy`,
  `community_names.dfy`), PageRank (`rank_vectors.dfy`,
  `pagerank.dfy`, and node by node over the edges in `pagerank_flow.dfy`), connected components (`components.dfy`) and shortest paths
  (`shortest_path.dfy`).
* **Structural similarity** of syntax trees (`similarity.dfy`), with closed forms for
  scores below one (`similarity_laws.dfy`).
* **HNSW.** The layered graph with its beam search (`hnsw_graph.dfy`), linking
  and pruning (`hnsw_links.dfy`), insertion, soft deletion and search
  (`hnsw_index.dfy`), the binary snapshot (`hnsw_snapshot.dfy`), the exact index
  it approximates (`brute_force.dfy`) and the registry that removes before it
  inserts (`vector_registry.dfy`). Small indexes are exact, run by run
  (`hnsw_exact.dfy`).
* **The compute cache**: write versions, a byte-bounded LRU (`cache.dfy`) and the
  glue that keeps hits fresh over any sequence of requests (`session.dfy`).

`index_anomalies.dfy` (with `small_indexes.dfy`), `anomalies.dfy` and
`negative_weights.dfy` (with `chains.dfy`) run short programs in which the code falls
short of what one would expect. The remaining files are shared helpers: `bytes.dfy` (byte order, UTF-8), `unicode.dfy` (the encoding of scalar values),
`values.dfy` (values, 64-bit float patterns), `sorting.dfy` (stable sort),
`sweeps.dfy` (passes over all nodes until one is quiet), `grouping.dfy`, `interning.dfy`, `graph_paths.dfy` and `wrappers.dfy`.

## Modelling choices

* The store is a finite map from byte strings to blobs. A blob is one case per
  serializer, so serialization is injective by construction.
* Weights, scores, ranks and distances are exact reals. Floats that are index
  values are 64-bit patterns, floats in snapshots are 32-bit patterns.
* Hash maps and sets are visited in arbitrary order wherever the program iterates
  over them; heaps hand out any extreme element. What is proved holds for every order.
* Generated ids, random levels and hash-map order enter as arguments.
* Machine integers are exact where they matter: `i64` keys, `u8` ranks, `u32` and
  `i64` snapshot fields, the wrapping `u64` write version.
* Objects the program updates in place are classes (`Storage`, `Collection`,
  `EdgeStore`, `HnswIndex`, `BruteForceIndex`, `WriteVersions`, `ComputeCache`,
  `Session`) and in-place arrays are arrays (union-find parents and ranks, the
  next rank vector, the used flags).
* Louvain's algebra is stated for any objective whose score and gain fit each
  other (`Louvain.Coupled`); `Louvain.ModularityCoupled` shows that modularity and
  the program's gain do.

## Where the code and its documentation disagree

* `prefix_end` documents an empty result as "scan to end"; a scan to an empty end
  key is an empty range, and the model follows the code. No built prefix is all `0xFF`.
* The module comment of `cache.rs` says the version is read before computing; the
  executor reads it afterwards. One `run` is atomic here, so both agree.
* `cache.rs` promises a bump on every RELATE or edge delete. Only `run` and
  `execute_batch` bump; `execute` alone and direct use of the edge store do not.
  `SessionModel.StayRightIff` says that entries stay right exactly when the counter
  moves on or neither counter nor edges change; `Anomalies.StaleHit` serves a stale
  payload after `EdgeStore.Delete`.
* `min_improvement` is documented as Louvain's early stop; the code never reads
  it. It stops when a pass moves nothing, and that is what is modelled.
* Louvain only rejects total weight zero. An accepted move raises modularity exactly
  when the total weight is positive (`Louvain.MoveImprovesIff`); with a negative one a
  run that moves anything ends worse than it began (`LouvainRun.EndsWorse`), as on two
  edges of weight 1 and -3 (`NegativeWeights.LouvainLowers`).
* DEFINE INDEX over a name in use can leave stale entries, and so can a batch that
  writes one document twice or creates over a stored one. `IndexDdl.DefineConsistentIff`
  and `BatchEffects.BatchConsistentIff` give the exact conditions;
  `IndexAnomalies.RedefinitionCounts` and `IndexAnomalies.LeftoversAnswer` are instances.
* Neither SELECT nor COUNT removes repetitions, so leftovers show: a SELECT returns a
  row twice exactly when a matching document has two selected entries
  (`IndexAnswers.RowsOnceIff`), a COUNT is off by the leftovers it meets
  (`IndexAnswers.CountSplits`, `IndexAnswers.CountAgreesIff`), and a unique check refuses
  a free tuple exactly when a leftover of it carries another id
  (`CollectionModel.UnclaimedIsFree`). `IndexAnomalies.LeftoversAnswer` shows all three.
  SELECT never loses a matching document to them (`IndexAnswers.AnswerSplits`).
* A leading-prefix plan misses documents without the full tuple:
  `IndexAnomalies.IndexHidesDocument` is an instance, `IndexAnswers.CompleteIff` the
  exact condition.
* A boolean range counts documents through a covering index that no filter accepts:
  `IndexAnomalies.IndexCountsTooMany` is an instance, `IndexAnswers.CountAgreesIff` the
  exact condition.
* Unique indexes are checked when a single CREATE stores a new document and by DEFINE
  INDEX; update, merge, merging upsert and batch do not look. One write keeps tuples
  unique exactly when no other document holds one of its
  (`CollectionModel.UniqueAfterWriteIff`), a batch or a bulk update exactly when the
  changes clash with nothing (`BatchEffects.BatchUniqueIff`,
  `CollectionModel.UniqueAfterChangesIff`); `IndexAnomalies.UpdateShares` is an instance
  and `Commands.UniqueWhileSafe` follows runs.
* Communities are documented as listing their representative. A community can outlive
  its node's own membership: `CommunityNames.LouvainDropsName` and
  `CommunityNames.LabelDropsName` are instances with three nodes and one pass.
  `CommunityNames.LouvainNameListedIff` and `CommunityNames.LabelNameListedIff` give the
  exact condition on the last visit. On the edge list, it is enough for both that no
  node has two neighbours (`CommunityNames.LouvainApart`, `CommunityNames.LabelApart`),
  for label propagation that the edges form a forest and none is repeated
  (`CommunityNames.LabelForest`), and for Louvain that they form stars whose rays weigh
  the same, at resolution two or less (`CommunityNames.LouvainStars`).

## Model

| member | source | states |
|---|---|---|
| Keys.ParseBuilt | crates/storage/src/key.rs:365-392 | a key built from NUL-free segments parses back to namespace, database, table, tag and remainder |
| Keys.KeyDecomposes | crates/storage/src/key.rs:44-92 | one key under two table prefixes has one table, tag and remainder |
| Keys.RegionsDisjoint | crates/storage/src/key.rs:325-332 | the regions of different tables or tags never share a key |
| Keys.IndexKeyDecomposes | crates/storage/src/key.rs:251-268 | an index key determines the index name and what follows it |
| Keys.EdgeKeyParses | crates/storage/src/key.rs:127-170 | an edge key splits back into vertex, direction and type, and far vertex |
| Keys.PrefixEnd | crates/storage/src/key.rs:338-348 | with a byte below 0xFF, keys in `[prefix, end)` are exactly those starting with the prefix; otherwise `end` is empty |
| StorageModel.Storage.WriteBatch | crates/storage/src/kv.rs:28-31 | one batch deletes first and puts second, later puts winning |
| StorageModel.Storage.Scan | crates/storage/src/kv.rs:17-20 | the entries of a half-open range, each once, in key order |
| StorageModel.Storage.PrefixScan | crates/storage/src/kv.rs:46-55 | the entries under a prefix in key order; nothing for an all-0xFF prefix |
| Values.SignedOrder | crates/document/src/index.rs:94-108 | for floats that are neither NaN nor -0.0 the flipped bit patterns order as the numbers do |
| Unicode.Utf8Iff | crates/document/src/index.rs:171 | the validity test accepts exactly the concatenated encodings of Unicode scalar values |
| Unicode.EncodeInjective | crates/document/src/index.rs:171 | different texts have different encodings |
| Comparisons.CmpMirrored | crates/query/src/executor.rs:2264-2273 | swapping the operands mirrors the result, across types too |
| Comparisons.EqualIff | crates/query/src/executor.rs:2224-2227 | values that compare are equal exactly when they are of one type and compare as equal; an integer equals no float |
| Comparisons.NumberIff | crates/query/src/executor.rs:2267 | a float compares, even with itself, exactly when its bit pattern without the sign is at most that of infinity |
| Comparisons.IntegerAsFloat | crates/query/src/executor.rs:2268-2269 | an integer that some float equals compares with every float as that float does |
| Comparisons.IntegerEqualsPattern | crates/query/src/executor.rs:2268 | an integer below 2^53 compares as equal to the bit pattern of its own value |
| Comparisons.RoundNearest | crates/query/src/executor.rs:2268-2269 | no double is nearer to an integer than the one it is converted to |
| Comparisons.RoundIsDouble | crates/query/src/executor.rs:2268-2269 | what a 64-bit integer is converted to is a double |
| Comparisons.NumericIff | crates/query/src/executor.rs:2268-2269 | an integer and a float compare as the two numbers do, except when the integer is no double and the float is the one nearest to it |
| IndexEncoding.EncodingPreservesOrder | crates/document/src/index.rs:78-108 | within one type, byte order of the encodings is value order and equal encodings mean equal values |
| IndexEncoding.EscapeInto | crates/document/src/index.rs:129-138 | the in-place loop appends exactly the escaped bytes |
| IndexEncoding.PartOrder | crates/document/src/index.rs:149-156 | escaping and terminating keeps byte order whatever follows the part |
| IndexEncoding.PartPrefixFree | crates/document/src/index.rs:112-126 | no terminated part is a prefix of another, whatever follows |
| IndexEncoding.EscapeBound | crates/document/src/index.rs:138-146 | an escaped bound without terminator separates the smaller values from the rest |
| IndexEncoding.EncodeCompositeKeyPart | crates/document/src/index.rs:203-212 | the loop concatenates the parts and fails exactly when a value is not indexable |
| IndexEncoding.PartsOrder | crates/document/src/index.rs:202-212 | composite parts sort by tuple, then by what follows |
| IndexEncoding.PartsPrefix | crates/document/src/index.rs:202-212 | the parts of an equality prefix are a byte prefix exactly when the tuple starts with it |
| IndexEncoding.PartsInjective | crates/document/src/index.rs:202-212 | a composite key part and what follows it determine tuple and suffix |
| IndexEncoding.IdFromEntry | crates/document/src/index.rs:159-181 | the cursor loop returns what follows the last terminator when it is text, and nothing otherwise |
| IndexEncoding.IdRecovered | crates/document/src/index.rs:155-181 | the id comes back after any tuple, embedded NUL bytes included |
| IndexEncoding.TermsParsed | crates/document/src/index.rs:159-181 | only a key made of terminated parts yields an id, and then the id is what follows them |
| IndexEncoding.TextRecovered | crates/document/src/index.rs:159-181 | the id of any text, whatever its characters, comes back after any tuple |
| IndexScan.RangeIsSelection | crates/document/src/index.rs:288-320 | an entry lies in the computed byte range exactly when its tuple starts with `eq` and its next value lies in the bounds |
| IndexScan.FindIds | crates/document/src/index.rs:273-333 | returns the ids of exactly the selected entries of the region, whoever wrote them, each once, ordered by tuple then id; other keys yield nothing; fails exactly on an unindexable value |
| IndexScan.TupleOrderIsValueOrder | crates/document/src/index.rs:202-212 | on typed columns byte order of tuples is the order of the values |
| IndexScan.SelectionOnValues | crates/document/src/index.rs:259-333 | on typed columns selection by bytes is selection by value comparison |
| IndexState.CollectIndexValues | crates/document/src/index.rs:188-200 | the full tuple in field order, or nothing when a field is missing or none |
| IndexState.BuildIndexEntries | crates/document/src/index.rs:221-258 | one entry per B-tree index whose full tuple is present |
| IndexState.EntryKeyInjective | crates/document/src/index.rs:240-255 | an entry key determines index, document and tuple |
| IndexState.EntriesAreStored | crates/document/src/index.rs:221-258 | on a consistent table an index holds exactly the entries of the stored documents and no leftover |
| IndexState.StoredAreHeld | crates/document/src/index.rs:221-258 | the index holds the entry of every stored document, whatever else it holds |
| IndexTransitions.WriteKeepsConsistent | crates/document/src/collection.rs:406-433 | deleting the old entries and putting the new ones with the document keeps every derived entry, an exact region exact and every leftover in place |
| IndexTransitions.DropKeepsConsistent | crates/document/src/collection.rs:436-459 | removing a document with its entries does the same |
| CollectionModel.LoadIndexDefinitions | crates/document/src/index.rs:425-440 | loads exactly the registered definitions |
| CollectionModel.CheckUniqueConstraint | crates/document/src/index.rs:445-476 | fails exactly when the tuple cannot be encoded or an entry of the index, derived or left over, gives it to another record |
| CollectionModel.UnclaimedIsFree | crates/document/src/index.rs:445-476 | no entry claims a tuple exactly when no other document holds it and no leftover entry of it carries another id |
| CollectionModel.UniqueAfterWriteIff | crates/document/src/index.rs:445-476 | storing a document keeps every unique tuple unique exactly when no other document holds one of its tuples |
| CollectionModel.UniqueAfterChangesIff | crates/document/src/collection.rs:383-403 | changing many documents keeps unique tuples unique exactly when no changed tuple is shared with another changed or an unchanged document |
| CollectionModel.Collection.Get | crates/document/src/collection.rs:250-260 | the stored document, or nothing |
| CollectionModel.Collection.ScanAll | crates/document/src/collection.rs:263-279 | every stored document once, in id order |
| CollectionModel.Collection.GetMany | crates/document/src/collection.rs:309-332 | the stored documents of the given ids, in that order |
| CollectionModel.Collection.CreateWithId | crates/document/src/collection.rs:104-155 | succeeds exactly when the id is free, the document indexable and no unique tuple claimed by another id's entry; a failure changes nothing |
| CollectionModel.Collection.Update | crates/document/src/collection.rs:363-380 | replaces an existing document and its entries |
| CollectionModel.Collection.Merge | crates/document/src/collection.rs:383-403 | merges fields into an existing document and re-derives its entries |
| CollectionModel.Collection.Upsert | crates/document/src/collection.rs:339-360 | merges the update into an existing document, creates it otherwise |
| CollectionModel.Collection.Delete | crates/document/src/collection.rs:436-459 | removes the document with its entries and says whether it existed |
| Planner.ConjunctsMeanClause | crates/query/src/executor.rs:1943-1953 | a document matches a clause exactly when it matches all its conjuncts |
| Planner.PlanMeansConsumed | crates/query/src/executor.rs:2040-2105 | a document satisfies the plan exactly when it satisfies the conjuncts the plan consumed |
| Planner.PlanExists | crates/query/src/executor.rs:2040-2105 | an index gives a plan exactly when its first field has an equality or a usable bound |
| Planner.PlanForIndex | crates/query/src/executor.rs:2040-2105 | the loops over fields and the used array compute the specified plan and its consumed count |
| Planner.PlanIndexLookup | crates/query/src/executor.rs:2003-2037 | picks the earliest best index; the clause implies the plan, and a covering plan implies the clause |
| Planner.ChoiceMeans | crates/query/src/executor.rs:2003-2037 | the chosen plan misses no document the clause accepts, and a covering one adds none |
| Planner.ChoicePrefers | crates/query/src/executor.rs:2011-2036 | the chosen index consumes most conjuncts, then has the longer equality prefix, then comes first; a covering plan is chosen whenever some index has one |
| Filters.SetIffIndexed | crates/document/src/index.rs:188-200 | an index derives an entry for an encodable document exactly when `IS NOT NONE` accepts it for every indexed field |
| Filters.IndexHoldsSet | crates/query/src/executor.rs:2251-2256 | a single-column index of a consistent table names exactly the documents that `IS NOT NONE` accepts |
| Filters.NoneRows | crates/query/src/executor.rs:2251-2256 | `IS NONE` returns every document that lacks the field or holds NONE, once; with the rows of `IS NOT NONE` these are all documents, none twice |
| Filters.NoneCounts | crates/query/src/executor.rs:2251-2256 | the two counts add up to the number of documents |
| Filters.UnequalRows | crates/query/src/executor.rs:2220-2227 | the rows of `!=` and the documents that answer `=` split those that have the field; without it neither holds |
| Filters.OrderSplits | crates/query/src/executor.rs:2228-2248 | `<` against `>=` and `>` against `<=` split the documents whose value compares |
| QueryExec.SelectWhere | crates/query/src/executor.rs:480-535 | the exact rows on any region: by scan each matching document once in id order, through the chosen index one row per selected entry that names a matching document, in entry order; `Filters` says which documents match |
| QueryExec.ExecCount | crates/query/src/executor.rs:785-824 | the exact count on any region: a covering plan counts the entries it selects, any other access its rows |
| IndexAnswers.AnswerSplits | crates/query/src/executor.rs:498-510 | on typed columns the answer through an index is the matching documents with an entry and the matching ones a leftover leads to |
| IndexAnswers.CompleteIff | crates/query/src/executor.rs:498-510 | it is scan-and-filter exactly when a leftover leads to every matching document that has no entry |
| IndexAnswers.CompleteIffIndexed | crates/query/src/executor.rs:498-510 | without leftovers it is scan-and-filter exactly when every matching document holds the full tuple |
| IndexAnswers.ConstrainedAnswers | crates/query/src/executor.rs:498-510 | through a plan that constrains every indexed field the answer is scan-and-filter, leftovers or not |
| IndexAnswers.RowsOnceIff | crates/query/src/executor.rs:498-510 | through an index each row comes once exactly when no matching document has two selected entries |
| IndexAnswers.CountSplits | crates/query/src/executor.rs:785-824 | the count is the documents whose entries the plan selects plus the leftovers it meets |
| IndexAnswers.CountAgreesIff | crates/query/src/executor.rs:785-824 | it is the number of matching documents exactly when it meets as many leftovers as matching documents have no entry; with a boolean bound, when it selects no entry |
| QueryExec.ExecDeleteWhere | crates/query/src/executor.rs:1192-1226 | removes exactly the answer to the filter, counts it, and changes no leftover, other table or edge |
| IndexAnomalies.IndexHidesDocument | crates/document/src/index.rs:184-200 | SELECT returns a document without the second field, and nothing once an index on both fields is defined |
| IndexAnomalies.IndexCountsTooMany | crates/query/src/executor.rs:2264-2273 | `active > false` counts 0 documents, and 1 once an index on the field is defined |
| IndexAnomalies.LeftoversAnswer | crates/document/src/index.rs:323-333 | after a batch rewrote a document, SELECT returns it twice, COUNT says 2, a document with the value it lost is refused, and COUNT of that value is 1 after its deletion |
| IndexAnomalies.RedefinitionCounts | crates/query/src/executor.rs:1265-1283 | `b = 1` counts 0 documents, and 1 once an index on another field was redefined on b |
| IndexAnomalies.UpdateShares | crates/query/src/executor.rs:732-755 | an UPDATE gives a document the unique value of another |
| IndexDdl.ExecDefineIndex | crates/query/src/executor.rs:1233-1287 | succeeds exactly when the fields are given, all documents encodable and, if unique, no tuple shared; backfills in one batch |
| IndexDdl.DefineConsistentIff | crates/query/src/executor.rs:1265-1283 | no derived entry is missing after a definition, and an exact region stays exact exactly when the name had no entry the backfill does not write again |
| IndexDdl.ExecRemoveIndex | crates/query/src/executor.rs:1290-1318 | removes definition and entries and keeps the invariant |
| Batch.BatchEqualsSequence | crates/query/src/executor.rs:1041-1148 | one merged deletes-then-puts batch leaves the store of running independent statements one by one |
| Batch.EveryStatementAccepted | crates/query/src/executor.rs:1060-1120 | a statement accepted against the initial store is accepted when its turn comes |
| Executor.CreateToOps | crates/document/src/collection.rs:162-182 | the operations of a create: the document and its entries |
| Executor.UpsertToOps | crates/document/src/collection.rs:189-243 | the created flag and the operations of an upsert against the stored document |
| Executor.CollectBatch | crates/query/src/executor.rs:1041-1145 | collects all operations against the unchanged store; refused exactly when a statement is |
| Executor.ExecuteBatch | crates/query/src/executor.rs:1041-1174 | one atomic write, refused exactly when a statement is; replies with the created and updated counts; keeps every derived entry, keeps the region exact exactly when nothing goes stale, and equals running independent statements one by one |
| Executor.RunOneByOne | crates/query/src/executor.rs:408-478 | the reference run of independent statements succeeds and reaches the specified store |
| BatchEffects.LastStatementWins | crates/query/src/executor.rs:1041-1148 | after any batch a document is what the last statement on it stores, computed against the store before the batch |
| BatchEffects.BatchKeepsCovered | crates/query/src/executor.rs:1041-1148 | whatever the batch, every entry the documents it leaves derive is stored |
| BatchEffects.BatchConsistentIff | crates/query/src/executor.rs:1041-1148 | a batch leaves the index region exact exactly when, for every created document, what any statement on it writes the last one writes too, and its old entries are deleted by one or written again by the last |
| BatchEffects.BatchUniqueIff | crates/query/src/executor.rs:1041-1148 | a batch keeps unique tuples unique exactly when the tuples its last statements store differ from each other and from those of the documents it does not target |
| BatchEffects.CountsAddUp | crates/query/src/executor.rs:1080-1120 | the created and updated counts of a batch add up to its CREATE statements |
| BatchEffects.StatementKeys | crates/query/src/executor.rs:1041-1148 | a statement writes no edge key of a table it does not relate |
| Executor.ExecCreate | crates/query/src/executor.rs:408-478 | succeeds exactly when the document is indexable and, when new, no entry claims its unique tuples, or the conflict clause applies; writes the stated delta or nothing |
| Executor.ExecUpdateRecord | crates/query/src/executor.rs:732-755 | merges an existing record, failing exactly when the result cannot be indexed |
| Executor.ExecUpdateWhere | crates/query/src/executor.rs:756-781 | merges exactly the matching rows before the first that cannot be indexed, fails exactly when there is one, and counts them |
| Executor.ExecDelete | crates/query/src/executor.rs:1176-1190 | removes one document with its entries |
| Commands.Execute | crates/query/src/executor.rs:146-262 | every command, reads and batches included, gives its stated reply and effect from any store that lacks no derived entry; it keeps a store exact exactly when it is clean, unique tuples unique exactly when it is safe, leftovers where only documents change, and edges it does not relate |
| Commands.RunAll | crates/query/src/executor.rs:146-262 | any run of commands is a history of such replies and effects and never loses a derived entry |
| Commands.ConsistentWhileClean | crates/query/src/executor.rs:146-262 | a run from an exact store stays exact up to the first command that is not clean, and is no longer exact after it |
| Commands.UniqueWhileSafe | crates/query/src/executor.rs:146-262 | unique tuples stay unique over a run up to the first command that stores one another document holds, and no longer |
| Edges.EdgeStore.Relate | crates/graph/src/store.rs:37-60 | writes both directions and keeps them exact mirrors of the edge map |
| Edges.EdgeStore.Get | crates/graph/src/store.rs:85-99 | the stored edge with its properties, or nothing |
| Edges.EdgeStore.Delete | crates/graph/src/store.rs:102-112 | removes both directions |
| Edges.EdgeStore.UpdateProperties | crates/graph/src/store.rs:253-268 | replaces the properties of an existing edge only |
| Edges.RepresentsUnique | crates/graph/src/store.rs:37-112 | the store determines the edge map it mirrors |
| Edges.VertexPrefixSelects | crates/storage/src/key.rs:185-206 | a vertex prefix selects exactly the edges at that vertex in that direction |
| Traversal.ScanOutgoing | crates/graph/src/traverse.rs:76-95 | exactly the outgoing edges of a hop, each once, with properties |
| Traversal.ScanIncoming | crates/graph/src/traverse.rs:116-135 | exactly the incoming edges of a hop, properties read from the forward entry |
| Traversal.ScanNeighbors | crates/graph/src/traverse.rs:188-203 | the far ends of exactly those edges, from keys alone |
| Traversal.Walk | crates/graph/src/traverse.rs:206-233 | exactly the vertex paths of all hop-labelled edge traces, each trace once |
| Traversal.PathVisits | crates/graph/src/traverse.rs:206-233 | a path starts at the start, and the k-th edge of its trace leads along the k-th hop from its k-th vertex to the next |
| Traversal.Frontier | crates/query/src/executor.rs:588-610 | the deduplicated frontier is exactly the endpoint set of the composed hop relations |
| Traversal.ScanAllEdges | crates/graph/src/store.rs:170-205 | every edge once as a pair, reverse entries skipped |
| Grouping.GroupsFromAssignment | crates/graph/src/community.rs:349-359 | groups list, in order, exactly the nodes of each label |
| LouvainRun.BuildAdjacency | crates/graph/src/community.rs:128-150 | adjacency and degrees of the undirected graph without self-loops |
| LouvainRun.HalfDegreeSum | crates/graph/src/community.rs:158-160 | half the degree sum is the total edge weight |
| LouvainRun.TracksMove | crates/graph/src/community.rs:241-245 | updating two totals keeps every `sigma_tot` the degree sum of its community |
| LouvainRun.VisitNode | crates/graph/src/community.rs:192-247 | moves a node to a candidate of greatest positive net gain, or certifies that none gains |
| Louvain.ModularityCoupled | crates/graph/src/community.rs:110-126 | the program's gain is the exact change of modularity at resolution γ, times m |
| Louvain.MoveChangesQuality | crates/graph/src/community.rs:200-247 | an accepted move changes the quality by exactly its net gain over m |
| Louvain.MoveImprovesIff | crates/graph/src/community.rs:160-170 | an accepted move improves modularity exactly when m is positive |
| Louvain.QualityRises | crates/graph/src/community.rs:188-256 | with m > 0 modularity rises at every accepted move of a run |
| Louvain.RunImproves | crates/graph/src/community.rs:188-256 | no assignment occurs twice and the result is at least as good as the singletons |
| LouvainRun.Detect | crates/graph/src/community.rs:96-260 | the groups of the assignment left by passes over the sorted nodes that stop at the first quiet pass or the limit, every visit taking a best move or finding none that gains |
| LouvainRun.EndsWell | crates/graph/src/community.rs:96-260 | with positive total weight such a run repeats no assignment and ends no worse than the singletons |
| Louvain.RunWorsens | crates/graph/src/community.rs:160-170 | with negative total weight a run that moves anything ends with lower quality than it started, and no assignment occurs twice |
| LouvainRun.EndsWorse | crates/graph/src/community.rs:160-170 | with negative total weight a run ends worse than the singletons unless nothing moved |
| NegativeWeights.LouvainLowers | crates/graph/src/community.rs:160-170 | edges a-b of weight 1 and b-c of weight -3 with one pass: every run ends with lower modularity than the singletons |
| CommunityNames.LouvainNamesConnected | crates/graph/src/community.rs:96-260 | every community is named after a node connected to each of its members |
| CommunityNames.LouvainNameListedIff | crates/graph/src/community.rs:62-65 | a community lists the node it is named after exactly when the last visit of that node left it there, no pass was made or the total weight is zero |
| CommunityNames.LouvainApart | crates/graph/src/community.rs:62-65 | when no node has two neighbours every community lists the node it is named after |
| CommunityNames.LouvainStars | crates/graph/src/community.rs:62-65 | on stars whose rays weigh the same, at resolution two or less, every community lists the node it is named after |
| CommunityNames.LouvainDropsName | crates/graph/src/community.rs:62-65 | edges a-b of weight 1 and b-c of weight 10 with one pass: every run names a community b that lists a alone |
| LabelPropagation.RelabelGains | crates/graph/src/community.rs:318-336 | each label change makes strictly more edges monochrome |
| LabelPropagation.RelabellingsBounded | crates/graph/src/community.rs:296-343 | after i changes at least i edges are monochrome, so there are at most as many changes as edges |
| LabelPropagation.LabelsStayLocal | crates/graph/src/community.rs:296-343 | every label is a node of its carrier's connected component |
| LabelPropagation.VisitNode | crates/graph/src/community.rs:299-337 | adopts the smallest most frequent label when it beats the current one, or certifies stability |
| LabelPropagation.Detect | crates/graph/src/community.rs:264-346 | the groups of the labels left by rounds over the sorted nodes that stop at the first quiet round or the limit |
| LabelPropagation.EndsWell | crates/graph/src/community.rs:296-340 | at most as many changes as edges, labels local; with more rounds allowed than edges, no node sees a label more often than its own |
| CommunityNames.LabelNameListedIff | crates/graph/src/community.rs:62-65 | the same condition for label propagation |
| CommunityNames.LabelApart | crates/graph/src/community.rs:62-65 | when no node has two neighbours every label is carried by its own node |
| CommunityNames.LabelForest | crates/graph/src/community.rs:62-65 | on a forest without repeated edges every label is carried by its own node |
| CommunityNames.LabelDropsName | crates/graph/src/community.rs:62-65 | edges a-b, b-c and c-b with one round: every run names a community b that lists a alone |
| Representatives.NameListedIff | crates/graph/src/community.rs:349-359 | the condition for any passes whose visits move a node to the community of a neighbour |
| Loyalty.LoyalNamesListed | crates/graph/src/community.rs:349-359 | when no visit moves a node with a neighbour in its own community, every community lists its name |
| PageRank.StepSum | crates/graph/src/pagerank.rs:65-84 | one iteration maps rank sum s to 1 - d + d s |
| PageRank.StepNonNegative | crates/graph/src/pagerank.rs:65-84 | for damping in [0,1] no rank becomes negative |
| PageRank.StepContracts | crates/graph/src/pagerank.rs:65-84 | one iteration brings two rank vectors closer in L1 by the damping factor |
| PageRank.StationaryUnique | crates/graph/src/pagerank.rs:65-95 | with damping below one there is at most one stationary vector |
| PageRank.RunSum | crates/graph/src/pagerank.rs:63-95 | every iterate sums to one |
| PageRank.RunNonNegative | crates/graph/src/pagerank.rs:63-95 | every iterate is non-negative for damping in [0,1] |
| PageRank.RunContracts | crates/graph/src/pagerank.rs:86-92 | consecutive changes shrink by the damping factor |
| PageRank.BuildGraph | crates/graph/src/pagerank.rs:38-60 | dense distinct labels and the positive-weight links and strengths of each |
| PageRank.Iterate | crates/graph/src/pagerank.rs:66-84 | the in-place accumulation computes the iteration that `PageRankFlow.StepAt` reads off the edges |
| PageRank.Power | crates/graph/src/pagerank.rs:63-95 | the iterates form a run that stops at the first change below the tolerance or at the limit |
| PageRank.ComputePageRank | crates/graph/src/pagerank.rs:37-104 | pairs the labels with the last vector of such a run over the graph of the edges, sorted by score, then name |
| PageRank.ScoresSumToOne | crates/graph/src/pagerank.rs:32-37 | every node is ranked once, the scores sum to one, and none is negative for damping in [0,1] |
| PageRankFlow.StepAt | crates/graph/src/pagerank.rs:66-84 | the new rank of a node is an equal share of teleport and dangling rank, plus over the positive edges into it the damped rank of the source times the weight over its out-strength |
| PageRankFlow.ScoresDescend | crates/graph/src/pagerank.rs:97-103 | greater scores come first, and of equal scores the smaller name |
| PageRankFlow.UnlinkedScoresLeast | crates/graph/src/pagerank.rs:63-104 | for damping in [0,1] a node that no positive edge enters scores no more than any other, whatever the limit |
| Components.Find | crates/graph/src/components.rs:98-104 | path halving terminates, returns the root and changes no root |
| Components.RankFits | crates/graph/src/components.rs:107-121 | a tied root's rank is below 64, so the u8 increment cannot overflow |
| Components.Union | crates/graph/src/components.rs:107-121 | merges exactly the two classes and keeps rank-ordered forest and 2^rank ≤ size |
| Components.RootsAreComponents | crates/graph/src/components.rs:56-65 | two nodes share a root exactly when the equivalence closure relates them |
| Components.ConnectedComponents | crates/graph/src/components.rs:39-87 | the groups are exactly the classes of the equivalence closure, sorted, each named by a member |
| ShortestPath.NoShorterPath | crates/graph/src/path.rs:34-55 | while the open nodes lie at depth d or more, an unvisited node is more than d links away |
| ShortestPath.Reconstruct | crates/graph/src/path.rs:61-70 | parent pointers lead back to the source along a simple path as long as the depth |
| ShortestPath.FindShortestPath | crates/graph/src/path.rs:15-58 | a simple path with fewest links is returned exactly when one within the bound exists |
| Similarity.IsoTransitive | crates/code-intel/src/similarity.rs:28-37 | equality up to sibling order is transitive, which the exchange needs |
| Similarity.GreedyFacts | crates/code-intel/src/similarity.rs:108-136 | picks are distinct unused trees, weighted by score and size |
| Similarity.Exchange | crates/code-intel/src/similarity.rs:108-136 | if the child lists pair off at all, they still pair off respecting every greedy pick |
| Similarity.RatioRight | crates/code-intel/src/similarity.rs:88-151 | the children's score lies in [0,1] and is one exactly when the lists pair off |
| Similarity.ScoreRight | crates/code-intel/src/similarity.rs:38-151 | the score lies in [0,1] and is one exactly for trees equal up to values and sibling order |
| Similarity.MatchChildren | crates/code-intel/src/similarity.rs:100-150 | the loops over the used array compute the specified matching score |
| Similarity.StructuralSimilarity | crates/code-intel/src/similarity.rs:38-80 | the recursive program computes that score; `SimilarityLaws` gives its values below one |
| SimilarityLaws.PickIsEarliestBest | crates/code-intel/src/similarity.rs:108-121 | a child picks the earliest free tree of greatest score, and none exactly when no free tree scores above zero |
| SimilarityLaws.GreedyRatio | crates/code-intel/src/similarity.rs:108-150 | the score of a matching is twice the credited mean sizes over both total sizes and once more the sizes nobody picked |
| SimilarityLaws.PartnersScore | crates/code-intel/src/similarity.rs:88-151 | when scores above zero leave each child at most one partner, the children score the sum over exactly those pairs |
| SimilarityLaws.CompositeScore | crates/code-intel/src/similarity.rs:53-72 | equal roots count for one node of the mean size, different ones halve what the children score |
| SimilarityLaws.ScoreZeroIff | crates/code-intel/src/similarity.rs:38-151 | the score is zero exactly when root types differ and no pair of children matches at any depth |
| SimilarityLaws.SameTypeFloor | crates/code-intel/src/similarity.rs:59-66 | composites of one type score at least 2 over their sizes, and exactly that when none of their children match at any depth |
| SimilarityLaws.RootsCap | crates/code-intel/src/similarity.rs:67-80 | roots of different types score below one half; a leaf against a composite scores 0.3 or 0 by its type alone |
| SimilarityLaws.FlatScore | crates/code-intel/src/similarity.rs:88-151 | lists of leaves score by the number of types they have in common, counted with repetition |
| SimilarityLaws.OneReplaced | crates/code-intel/src/similarity.rs:53-66 | n leaves against the same with one replaced by another type score 1/(n+1) + n/(n+1) * (n-1)/(n+1/2) |
| HnswGraph.GreedyClosest | crates/vector/src/hnsw.rs:118-140 | terminates at a reachable node none of whose live neighbours is closer |
| HnswGraph.SearchLayer | crates/vector/src/hnsw.rs:143-189 | results are sorted, distinct, reachable and expanded; a neighbour of a result is kept or no closer than the worst of a full list; ef 0 acts as 1 |
| HnswGraph.WideBeamIsExhaustive | crates/vector/src/hnsw.rs:143-189 | with ef at least the node count the results are exactly the reachable nodes |
| HnswLinks.PrunedOk | crates/vector/src/hnsw.rs:445-456 | pruning keeps a short list of distinct members of the old one |
| HnswLinks.PrunedKeepsNearest | crates/vector/src/hnsw.rs:445-456 | nothing dropped is closer than anything kept |
| HnswLinks.ConnectKeepsLinked | crates/vector/src/hnsw.rs:435-458 | connecting keeps every list in range, distinct, irreflexive, in its layer and at most 2m long |
| Sorting.SortStable | crates/vector/src/hnsw.rs:451 | elements that tie stay in the order they were in |
| HnswLinks.ConnectLinksBack | crates/vector/src/hnsw.rs:438-457 | a neighbour with fewer than 2m entries keeps its list and gains the new node, a full one keeps exactly m of them; no other list changes |
| HnswIndexes.NearestFirst | crates/vector/src/hnsw.rs:436-438 | as many results as fit are linked, and none left out is nearer |
| HnswIndexes.HnswIndex.Connect | crates/vector/src/hnsw.rs:435-458 | the new node lists its m nearest, each of them lists it back as `ConnectLinksBack` says, and nothing else changes |
| HnswIndexes.HnswIndex.Insert | crates/vector/src/hnsw.rs:461-502 | descends greedily, links every shared layer to the nearest results of a beam search, keeps the structure, moves the entry point to the highest level, and keeps live ids unique exactly when the id was not live |
| HnswIndexes.JoinedHasNeighbours | crates/vector/src/hnsw.rs:484-496 | with positive capacity an inserted node has a neighbour in every layer it shares |
| HnswIndexes.HnswIndex.Remove | crates/vector/src/hnsw.rs:504-513 | marks exactly the live node of the id and keeps structure and uniqueness |
| HnswIndexes.HnswIndex.SearchEf | crates/vector/src/hnsw.rs:79-104 | the first k live results of a beam search of layer 0 started where one greedy search per upper layer ended |
| HnswIndexes.InsertedFields | crates/vector/src/hnsw.rs:461-473 | live contents after an insertion are those of a map update |
| BruteForce.BruteForceIndex.Insert | crates/vector/src/brute_force.rs:25-29 | replaces any entry of the id |
| BruteForce.BruteForceIndex.Remove | crates/vector/src/brute_force.rs:31-35 | removes the entry of the id and says whether there was one |
| BruteForce.WideSearchMatchesScan | crates/vector/src/hnsw.rs:79-104 | with a beam as wide as the graph, HNSW returns the same k smallest distances as a linear scan of the live reachable nodes |
| BruteForce.ReachingSearchMatchesScan | crates/vector/src/hnsw.rs:79-104 | when layer 0 reaches every live node, those are the distances of a scan of all live contents |
| HnswExact.JoinedCompletes | crates/vector/src/hnsw.rs:461-502 | while at most m nodes precede it and the construction beam is wide enough, an inserted node leaves layer 0 linking every two nodes |
| HnswExact.SearchBoth | crates/vector/src/hnsw.rs:79-104 | a search of such an index with a wide beam returns the distances of the exact index with the same contents |
| HnswExact.RunIsExact | crates/vector/src/hnsw.rs:461-513 | so after any run of insertions and removals on both that pushes at most m + 1 nodes |
| VectorRegistry.VectorInsert | crates/query/src/search.rs:189-203 | remove-then-insert keeps the index sound with unique live ids; other dimensions are skipped |
| VectorRegistry.VectorSearch | crates/query/src/search.rs:219-240 | errors exactly for an unknown index or a wrong dimension; otherwise the search result: live ids, each once, with their distances, nearest first |
| VectorRegistry.ApplyAll | crates/query/src/search.rs:189-215 | every run keeps the index sound and its live contents those of a plain map |
| HnswSnapshot.U32Exact | crates/vector/src/hnsw.rs:205-232 | little-endian 32-bit fields read back |
| HnswSnapshot.NodeBack | crates/vector/src/hnsw.rs:235-260 | a written node reads back with whatever follows |
| HnswSnapshot.RoundTrip | crates/vector/src/hnsw.rs:197-401 | everything but the lookup comes back as written, the lookup is rebuilt from live nodes |
| HnswSnapshot.IdBackIff | crates/vector/src/hnsw.rs:340-347 | an id field reads back exactly when its bytes are text |
| HnswSnapshot.SnapshotRestores | crates/vector/src/hnsw.rs:197-401 | for a sound index whose ids are texts and whose sizes fit, deserializing the snapshot restores every field |
| HnswSnapshot.SnapshotSize | crates/vector/src/hnsw.rs:404-430 | the computed size is the length of the snapshot |
| HnswSnapshot.Serialize | crates/vector/src/hnsw.rs:197-264 | the buffer loops write the specified bytes |
| HnswSnapshot.Deserialize | crates/vector/src/hnsw.rs:267-401 | the cursor loops read them back, failing on a bad header, short data or invalid UTF-8 |
| Cache.WriteVersions.Bump | crates/query/src/cache.rs:68-89 | adds one modulo 2^64 to one table's counter only |
| Cache.ComputeCache.Get | crates/query/src/cache.rs:279-287 | a hit needs the exact version; the entry becomes most recent either way |
| Cache.ComputeCache.Insert | crates/query/src/cache.rs:292-322 | evicts the shortest least-recent part that makes room; counts bytes exactly; over the byte limit only with one entry |
| SessionModel.StayRightIff | crates/query/src/cache.rs:12-15 | whatever is computed and cached, right entries stay right exactly when the counter moves on or neither counter nor edges change |
| SessionModel.Session.RunAnalysis | crates/query/src/executor.rs:275-402 | over any store, a lookup under the current version returns the cached payload; otherwise the payload is computed on the stored edges and cached |
| SessionModel.Session.RunWrite | crates/query/src/executor.rs:1159-1165 | a command or batch acts and answers as it does alone, bumps each table once per edge it relates and nothing on refusal, and keeps the cache fresh unless a counter wraps |
| SessionModel.Session.RunAll | crates/query/src/executor.rs:275-402 | over any sequence of requests, batches and redefinitions included, every write acts and answers as its command does and every payload served is right, until a counter wraps |
| SessionModel.HitsAreRight | crates/query/src/cache.rs:12-15 | in such a sequence a hit is a payload the computation could return on the edges of that moment |
| Anomalies.StaleHit | crates/graph/src/store.rs:102-112 | after a direct edge delete the session serves a payload that no computation could return any more |

## Left out

- Serialization of documents, properties and definitions is taken as injective; MessagePack is not modelled.
- redb, transactions, durability, tokio and the HTTP, CLI and server layers.
- The query tokenizer and parser, projections, ORDER BY, LIMIT and grouped counts.
- Full-text and vector fields of tables, hybrid search and their maintenance after writes.
- Schema validation of documents.
- Mixed-type indexed columns, NaN and -0.0: comparisons cross types, encodings do not.
- Rounding of floating-point scores, weights, ranks and distances.
- The distance formulas: any function of two vectors and a metric.
- The random choice of HNSW levels, recall, and layer-0 connectivity once more than `m + 1` nodes were pushed.
- Degree centrality, clone detection and fingerprints: table lookups and hashing without a law of their own.
- Components.ConnectedComponents: takes at most 2^63 edges, the length limit of a list.
- SessionModel.Session.RunAll: one request is atomic; interleaved requests of several connections are not modelled.
- Cache.ComputeCache.Insert: byte totals are unbounded naturals, so overflow of `usize` is not modelled.
- Size limits of the snapshot format above 32 bits, which the writer truncates.
