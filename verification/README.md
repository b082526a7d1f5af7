# Determinism of the corpus pipeline: model and proofs

INDW promises that the same corpus and configuration give the same keep and drop decisions whatever
the batching, sharding, caching or restarting (README.md, line 184 of the repository). The code that
decides this is a set of small stateful algorithms. This project models them in Dafny and proves what
they guarantee, over every input, every run and every failure pattern.

Code that updates objects in place is modelled by classes and loops whose contracts tie each
operation to a function of the old state; the theorems are lemmas about those functions and about
whole runs of them. Code made of expressions is modelled by functions and lemmas.

| files | component |
|---|---|
| `EmbedSpec`, `EmbedProofs`, `EmbedFiling`, `EmbedRecords`, `EmbedFilter` | embedding near-duplicate filter: blocked index, clusters, adaptive threshold |
| `Encoder`, `Lru` | fault-tolerant batch encoder over a vector cache |
| `InterleaveSpec`, `InterleaveProofs`, `Interleaver` | weighted interleaving of sources with offsets |
| `Normalize`, `ExactIndex`, `ExactDedup`, `ShardedDedup` | exact dedup: normal form, write-behind index, verdicts, shards |
| `Semantic`, `SemanticResume`, `Replay` | windowed semantic filter; rebuilding the layers on resume |
| `Paragraphs`, `Packing`, `Segment`, `Segmenter`, `Overlap`, `FenceParts`, `HardLimit`, `LimitKept` | segmentation: paragraphs, greedy packing, merging, sections, overlap, limits |
| `CodeFences`, `CodeFenceProofs`, `CodeFenceNuls` | protecting and restoring code fences |
| `Splice`, `License`, `Trim`, `TrimExact` | merging licence regions; cutting spans out of a text |
| `CorpusSpec`, `CorpusProofs`, `CorpusStats` | corpus fragment statistics: cache over a store |
| `ConfigMerge`, `ConfigCompose` | deep merge and inheritance of configuration files |
| `Evidence` | evidence arithmetic over the reals |
| `Wrappers`, `Collections`, `Arithmetic` | shared helpers |

Things outside the code are parameters, so a theorem holds for all of them: digests, Unicode case and
composition, white space, regular-expression verdicts on a block (atomic, heading, protected), the
embedding model and the way its calls fail, similarity scores and percentiles, and the eviction
policy of the bounded cache. Digests are taken as injective only where a lemma says so.

## Where the code does less than it seems to

Each item names the lemmas that state it. Those marked *iff* give the exact condition, over all inputs
of the kind described; the others give a family of inputs on which the property fails.

- *iff* Restoring protected code fences gives a text back exactly when no placeholder stands in the text
  before its fence, or in what follows with the later fences protected (`RestoreTextIff`). For text
  without NUL that means: no stretch between two fences reads as the placeholder of an earlier fence
  (`RestoreProtectedIff`, `FailingText`).
- *iff* The vector cache keys on the text before truncation. Two texts with one key are given to the
  model as the same input exactly when they clean to the same body, nothing is cut off, the key fits
  the character limit, or the prefix alone fills the limit and the bodies agree up to it
  (`SameKeySameInputIff`). A text that could not be encoded is counted as a failure twice
  (`EmbedBatch`). An empty text is sent as the bare label `passage: `, whatever prefix is configured
  (`EmptyTextLabel`).
- *iff* The interleaver comes to an end exactly when every weight is at least one or none is positive; in
  the second case it delivers nothing (`OpenedEndsIff`). Of several sources with one name the last is
  opened (`LastOfNameWins`).
- *iff* The hash index counts its initial size plus its insertions exactly when no present digest was
  ever registered as new (`Count`).
- *iff* Shards filled under one count and opened under another give the verdicts of the unsharded
  deduplicator exactly when every stored digest has the same shard under both (`AgreesIff`). Two
  counts place all digests alike exactly when they are equal or both 256 or more (`SameShardsIff`).
  The session counter of duplicates never moves (`ShardedDedup.ShardedExactDedup.IsDuplicate`).
- *iff* After a resume the exact layer gives every later stream the verdicts of a run that did not stop
  exactly when each kept text that is not read back is still in the index (`ExactResumesIff`). Texts
  of white space are never read back (`BlankLost`), nor are skipped lines without full replay.
- *iff* The semantic layer does the same exactly when the skipped texts have left its windows: 128 texts
  were kept after them, and a full bucket of each of their buckets (`SemanticResumesIff`). That is
  for kept texts that are not blank, and skipped ones that have words and are near no text kept since
  outside their bucket, under thresholds that make a text near itself; with buckets smaller than 128,
  or a recent threshold below that of the buckets, near no text kept since at all. The condition is
  sufficient without any of this (`WindowsResume`). A skipped text whose bucket was not refilled is
  let through again, unless a later text of another bucket is near it (`Forgotten`).
- In the statistics cache the lookup in the store by fingerprint can never find anything
  (`FourthLookupIsDead`). Eviction loses counts exactly when no store is attached (`EvictLoses`).
- *iff* Deep merge is associative exactly when nowhere a value that is no dictionary stands between two
  dictionaries, unless the last covers the first (`MergeAssociativeIff`, `AssociativityFails`).
- *iff* Freezing and thawing give a value back exactly when it holds no tuple and no key other than a
  string (`ThawFreezeIff`): a mapping with a number for a key comes back with text for it.
- *iff* Inheritance fails not only on cycles. It succeeds exactly when every file that can be reached
  loads and is reached on one path only (`ComposePathsIff`). An `extends` that names nobody stays in
  the result (`ExtendsLeaksIff`).
- *iff* Merging licence regions drops a region that overlaps an earlier one and is no surer, and with it
  what it alone covers (`FoldCoversIff`, `TailLost`).
- *iff* The hard limit on segments is not enforced. All segments of every text of short enough paragraphs
  are within it exactly when nothing is split, or nothing can be within it, or it is at or above a
  bound and there is no overlap (`LimitKeptIff`). With any overlap, as shipped, no limit is kept: two
  paragraphs that fill it make a second segment that holds both (`OverlapOver`). Before overlap the
  bound alone decides (`ChunkLimitIff`, `ChunksWithinIff`). It comes from token counts, which are
  rounded down one paragraph at a time and leave out separators: a chunk of 3000 tokens of 4
  characters, as shipped, can be 26998 characters long (`ShippedBound`), and the shipped limit is
  16000. Packing again changes nothing from the bound on (`RepackIsIdleAbove`), and below it nothing
  on texts without headings and fences (`RepackIsIdle`, `HardLimitIsIdle`): one paragraph too long
  for a chunk comes out whole, and so do many short ones that fit one by their tokens
  (`HardLimitExceeded`).
- *iff* Trimming counts offsets in the text before any deletion. Where no span is skipped it leaves
  exactly the text outside the spans if and only if no two of them overlap (`TrimmedExactIff`); a
  line inside a block that goes as well is such a pair. A span given twice takes what follows it
  (`RepeatedSpan`).
- *iff* The unit of measurement matters to a baseline exactly when there is one positive value, which
  has no peer to be measured by (`BaselineScaledIff`).

## Model

| member | source | states |
|---|---|---|
| `EmbedFilter.BucketAnnIndex.Insert` | src/indw/dedup/embed/ann.py:25-34 | inserting appends to the block, sheds the excess from the front, and evicts the oldest entry over the global cap |
| `EmbedFilter.BucketAnnIndex.Replace` | src/indw/dedup/embed/ann.py:36-47 | the entry leaves its old block and joins the block of the new representative |
| `EmbedFilter.BucketAnnIndex.EvictOldest` | src/indw/dedup/embed/ann.py:49-57 | the smallest live id goes, from the entries and from its block |
| `EmbedFilter.BucketAnnIndex.CandidatesFor` | src/indw/dedup/embed/ann.py:20-23 | the candidates are the admissible ones among the first of the newcomer's block |
| `EmbedFilter.NearDuplicateClusterBuilder.FindMatch` | src/indw/dedup/embed/cluster.py:21-42 | the scan yields what the match function says |
| `EmbedFilter.NearDuplicateClusterBuilder.AttachDuplicate` | src/indw/dedup/embed/cluster.py:18-19 | the cluster grows by one, from one if unknown |
| `EmbedFilter.StreamingEmbeddingDedup.Evaluate` | src/indw/dedup/embed/pipeline.py:142-184 | one document takes the filter from its state to the next as the step relation says, whatever the encoder does |
| `EmbedProofs.CandidatesAre` | src/indw/dedup/embed/candidate.py:64-84 | candidates are live entries of the same block; within a block only the token overlap decides |
| `EmbedProofs.FindMatchIs` | src/indw/dedup/embed/cluster.py:21-42 | there is a match exactly when some comparable candidate above -1 reaches the threshold, and it is the leftmost best one |
| `EmbedProofs.EvictKeeps` | src/indw/dedup/embed/ann.py:49-57 | eviction removes exactly the least id and keeps buckets and entries consistent |
| `EmbedProofs.InsertKeeps` | src/indw/dedup/embed/ann.py:25-34 | insertion keeps the index consistent and within its caps |
| `EmbedProofs.ReplaceKeeps` | src/indw/dedup/embed/ann.py:36-47 | replacement keeps the index consistent and changes that entry only |
| `EmbedProofs.StepKeepsInv` | src/indw/dedup/embed/pipeline.py:142-184 | every document keeps the whole invariant |
| `EmbedProofs.RunKeepsInv` | src/indw/dedup/embed/pipeline.py:109-184 | over any run: consistent buckets, entries and total, caps, ids live exactly the last ones allocated, cluster sizes adding up to ids allocated plus duplicates |
| `EmbedProofs.ReachableInv` | src/indw/dedup/embed/ann.py:25-57 | in every reachable state an id stands in one bucket at most once, as its live entry, and the global cap holds |
| `EmbedProofs.RejectedIff` | src/indw/dedup/embed/pipeline.py:158-171 | a document is rejected exactly when the leftmost best candidate reaches the threshold with a rank within the margin |
| `EmbedProofs.RejectionWitness` | src/indw/dedup/embed/pipeline.py:158-171 | every rejection has a live witness in the same block, similar enough and of rank plus margin at least the newcomer's |
| `EmbedProofs.BestDecides` | src/indw/dedup/embed/pipeline.py:158-171 | the leftmost best candidate, once it reaches the threshold, decides alone: whether the newcomer is rejected and counted in its cluster and no other, or kept and, when registered, put in its place and no other |
| `EmbedProofs.OpensClusterIff` | src/indw/dedup/embed/pipeline.py:172-184 | a cluster is opened exactly when a registered, embedded document has no candidate in its way |
| `EmbedProofs.StepRank` | src/indw/dedup/embed/representative.py:9-17 | a replacement raises the rank by more than the margin |
| `EmbedProofs.RunRanksRise` | src/indw/dedup/embed/pipeline.py:158-166 | over any run a live cluster's rank gains more than the margin per replacement, so with a non-negative margin it never falls |
| `EmbedFiling.SameBlockIff` | src/indw/dedup/embed/candidate.py:52-62 | two documents share a block exactly when the parts the configuration asks for and their simhash buckets agree |
| `EmbedFiling.TokenOverlapIs` | src/indw/dedup/embed/candidate.py:17-20 | the overlap is the share of all words that both have, and none when one has no words |
| `EmbedFiling.FilterSplit` | src/indw/dedup/embed/candidate.py:69-84 | a bucket is filtered pair by pair by the share of common words alone, and keeps its order |
| `EmbedFiling.WithoutPresent` | src/indw/dedup/embed/ann.py:41 | taking an id out of a bucket takes its pair, and what stood before and after it stays as it stood |
| `EmbedFiling.InsertFiles` | src/indw/dedup/embed/ann.py:25-34 | inserting, bucket by bucket: the newcomer goes to the end of its own block, the excess goes from its front, the evicted id goes from wherever it stood, and all else stays in order |
| `EmbedFiling.ReplaceFiles` | src/indw/dedup/embed/ann.py:36-47 | replacing, bucket by bucket: the old pair goes from where it stood, the new one to the end of its own block |
| `EmbedFiling.EvictFiles` | src/indw/dedup/embed/ann.py:49-57 | evicting takes the least id out of the bucket it stands in, and nothing else out of any |
| `EmbedFiling.InsertedIsLast` | src/indw/dedup/embed/ann.py:25-34 | with caps of at least one, the pair inserted is the last of its bucket |
| `EmbedFiling.ReplacedIsLast` | src/indw/dedup/embed/ann.py:36-47 | and so is the pair that replaces another |
| `EmbedFiling.LiveIsFiled` | src/indw/dedup/embed/ann.py:25-57 | over every run a live entry stands in the bucket of its block, unless at least a full bucket of pairs was filed there after it |
| `EmbedFiling.StoredIsLast` | src/indw/dedup/embed/pipeline.py:158-184 | a document that was stored is the last of its block |
| `EmbedFiling.ResubmittedRejected` | src/indw/dedup/embed/pipeline.py:150-171 | a stored document is rejected when it comes again at once, if its block fits the candidate limit, it overlaps with itself and reaches the threshold against itself, and nothing is closer |
| `EmbedFiling.OpenedRejectedAgain` | src/indw/dedup/embed/pipeline.py:150-184 | with a fixed threshold a document that opened a cluster is rejected when it comes again at once, with nothing asked of the others |
| `EmbedRecords.RankGap` | src/indw/dedup/embed/contracts.py:50-57 | how much a difference in each score moves a rank |
| `EmbedRecords.RunRecords` | src/indw/dedup/embed/threshold.py:19-27 | over every run the reservoirs hold the last 2048 similarities at which a document was rejected and at which one met no match; the counters are of the rejected and the stored |
| `EmbedRecords.RunThreshold` | src/indw/dedup/embed/threshold.py:29-35 | over every run the threshold is the upper limit if it is fixed, halfway between the limits while a reservoir holds fewer than eight, and else halfway between the two percentiles, within the limits |
| `EmbedRecords.MaxSimIs` | src/indw/dedup/embed/pipeline.py:172-178 | the similarity recorded without a match is the greatest to a comparable candidate, or zero without any |
| `EmbedRecords.DisabledForever` | src/indw/dedup/embed/pipeline.py:109-140 | once an embedding raised, every document is kept and nothing changes any more |
| `EmbedRecords.DisabledIff` | src/indw/dedup/embed/pipeline.py:76-89 | a run ends disabled exactly when some embedding raised |
| `Encoder.SameKeySameInputIff` | src/indw/dedup/embed/e5.py:21-41 | when equal cache keys mean equal model input, exactly, whatever the prefix and the limit |
| `Encoder.E5EmbeddingProvider.EncodeWithRecovery` | src/indw/dedup/embed/e5.py:243-275 | for any failure pattern it ends with one result per text in order: the text's own vector, or nothing if a chunk of that text alone failed during this call with no smaller batch size left; it starts with a full batch and follows up every failure at once, at half the batch size when memory ran out and else on the first half of the chunk |
| `Encoder.E5EmbeddingProvider.TryChunk` | src/indw/dedup/embed/e5.py:252-274 | one chunk is retried at a smaller batch size exactly when memory ran out and there is one, and else settled, by encoding, giving up or bisection, on the evidence of the calls made for it |
| `Encoder.E5EmbeddingProvider.LookUp` | src/indw/dedup/embed/e5.py:212-223 | each slot is the cached vector of its key, or empty if there is none; exactly the texts without one are noted, in order |
| `Encoder.E5EmbeddingProvider.Fill` | src/indw/dedup/embed/e5.py:225-231 | encoded vectors go to the noted slots and nowhere else; the cache stays sound and takes what is not zero and nothing else, and all of it while it evicts nothing |
| `Encoder.E5EmbeddingProvider.EncodePending` | src/indw/dedup/embed/e5.py:225-231 | the noted texts and no others are given to the model, and their results fill the noted slots |
| `Encoder.E5EmbeddingProvider.EmbedBatch` | src/indw/dedup/embed/e5.py:197-241 | a text whose key is cached gets exactly that vector and is not given to the model; any other its own vector, or zeros after a failure of the text alone in this batch; with everything cached the model is not called; documents and failures are counted as the code does; what is not zero is remembered |
| `Encoder.OwnVector` | src/indw/dedup/embed/e5.py:21-41 | a text whose key fits the limit, or that meets no limit, gets its own vector |
| `Encoder.EmptyMatches` | src/indw/dedup/embed/e5.py:228-236 | the empty slots of a batch are the failed results of the encoder |
| `Interleaver.WeightedSchedule` | src/indw/schedule/core.py:17-21 | a source occurs in the schedule as often as its weight says, not at all below one |
| `Interleaver.LastOfNameWins` | src/indw/schedule/core.py:40-48 | of several sources with one name the last one in the list is opened |
| `Interleaver.InterleavedSources.constructor` | src/indw/schedule/core.py:40-50 | opening puts every source at its checkpoint offset, and into the schedule as often as its configured weight says: once without one, not at all below one |
| `Interleaver.InterleavedSources.Advance` | src/indw/schedule/core.py:62-75 | one pass of the loop is one tick of the machine |
| `Interleaver.InterleavedSources.Iterate` | src/indw/schedule/core.py:58-75 | with every live source scheduled the iteration ends and has delivered exactly what each source held |
| `InterleaveProofs.TicksDeliver` | src/indw/schedule/core.py:62-75 | at any time, delivered plus still held is what was held: each line once, in file order, numbered consecutively |
| `InterleaveProofs.TerminatesIff` | src/indw/schedule/core.py:61-73 | the iteration ends exactly when every live source is scheduled |
| `InterleaveProofs.OpenedEndsIff` | src/indw/schedule/core.py:40-73 | freshly opened, the iteration ends exactly when every weight is at least one or none is positive, and then there is no schedule |
| `InterleaveProofs.ReopenDeliversRest` | src/indw/schedule/core.py:40-75 | stopping anywhere and reopening at the consumed offsets delivers per source exactly the rest |
| `InterleaveProofs.BlocksCount` | src/indw/schedule/core.py:17-21 | occurrences in the schedule equal the weight |
| `InterleaveProofs.YieldsFollowSlots` | src/indw/schedule/core.py:62-75 | while nothing has run dry every slot yields a line of its source |
| `InterleaveProofs.Fair` | src/indw/schedule/core.py:58-75 | after k cycles a source has yielded k times its weight, and between k and k+1 cycles no more than (k+1) times it |
| `InterleaveProofs.OpenedCount` | src/indw/schedule/core.py:17-49 | how often an opened source stands in the schedule, by its configured weight |
| `InterleaveProofs.OpenedFair` | src/indw/schedule/core.py:40-75 | freshly opened, after k cycles a source has yielded k times its configured weight, and one without a configured weight k lines |
| `InterleaveProofs.ScheduleSorted` | src/indw/schedule/core.py:19-20 | the schedule lists the names in their order as strings |
| `Normalize.NormalizeForDedup` | src/indw/dedup/normalize.py:11-28 | the loop yields the lower-cased words with single spaces between |
| `Normalize.ContentHash` | src/indw/dedup/normalize.py:31-53 | the one-pass machine hashes exactly the normal form |
| `Normalize.SpacedInjective` | src/indw/dedup/normalize.py:11-28 | equal normal forms come from equal words |
| `Normalize.SameHashIff` | src/indw/dedup/normalize.py:31-53 | with an injective digest two texts, empty or not, hash alike exactly when they have the same words |
| `Normalize.InvisibleIff` | src/indw/dedup/normalize.py:7-8 | a character makes no difference to any text exactly when it is a control character below the space other than tab, newline and carriage return |
| `ExactIndex.PersistentHashIndex.Flush` | src/indw/dedup/exact.py:60-76 | writing the buffer out changes nothing the index stands for |
| `ExactIndex.PersistentHashIndex.LookupHash` | src/indw/dedup/exact.py:81-103 | the answer is that of database and buffer together, for any cache eviction, cached negatives included; each lookup is counted, and as a hit exactly when buffer or cache answer it |
| `ExactIndex.PersistentHashIndex.StageHash` | src/indw/dedup/exact.py:112-121 | staging adds the digest, with a flush exactly when the batch is full |
| `ExactIndex.PersistentHashIndex.IsDuplicate` | src/indw/dedup/exact.py:123-130 | a duplicate is a digest already present; a new one becomes present |
| `ExactIndex.PersistentHashIndex.RegisterHash` | src/indw/dedup/exact.py:132-139 | registering with or without the assumption that the digest is new |
| `ExactIndex.PersistentHashIndex.Count` | src/indw/dedup/exact.py:144-147 | the count is base plus insertions less redundant ones, and base plus insertions exactly when there were none |
| `ExactIndex.StagedCache` | src/indw/dedup/exact.py:112-121 | whatever the eviction policy drops, the cache holds right answers only |
| `ExactDedup.VerdictIs` | src/indw/ingest/hash.py:18-37 | the verdicts are "known initially or earlier in the stream" |
| `ExactDedup.VerdictsResume` | src/indw/ingest/hash.py:18-37 | a second stream depends on the first only through what it made known |
| `ExactDedup.ExactHashDedup.IsDuplicate` | src/indw/ingest/hash.py:18-37 | the digest given, or else that of the text, is a duplicate exactly when known, and is known afterwards, in the index with its source; kept plus duplicates equals the calls, memory stays inside the index, a trained or exported digest is counted once, and a digest in memory moves no such count |
| `ExactDedup.ExactHashDedup.SeedText` | src/indw/ingest/hash.py:39-44 | seeding makes a text known, with its source, and reports one already in the index as a duplicate |
| `ExactDedup.ExactHashDedup.HasText` | src/indw/ingest/hash.py:46-51 | asking changes nothing known |
| `ExactDedup.ExactHashDedup.SeedTextIfMissing` | src/indw/ingest/hash.py:53-57 | seeding reports whether the text was unknown, and counts no duplicate |
| `ExactDedup.ExactHashDedup.AskAll` | src/indw/ingest/hash.py:18-37 | a stream of digests gets the verdicts of the specification |
| `ShardedDedup.AgreesIff` | src/indw/dedup/service/exact_shard.py:31-49 | shards filled under one count and opened under another agree with the unsharded deduplicator on every digest exactly when each stored digest has the same shard under both |
| `ShardedDedup.SameShardsIff` | src/indw/dedup/service/exact_shard.py:31-38 | which two shard counts send every digest to the same shard |
| `ShardedDedup.HexDigitIs` | src/indw/dedup/service/exact_shard.py:34-35 | sixteen hexadecimal digits in either case, and their values |
| `ShardedDedup.AskKeepsPlaced` | src/indw/dedup/service/exact_shard.py:31-49 | asking keeps every digest in its own shard only, and grows the union by it |
| `ShardedDedup.ShardedExactDedup.constructor` | src/indw/dedup/service/exact_shard.py:11-29 | one index and one deduplicator per shard over the stored hashes |
| `ShardedDedup.ShardedExactDedup.SyncStats` | src/indw/dedup/service/exact_shard.py:80-93 | the totals are the sums over the shards |
| `ShardedDedup.SumSplit` | src/indw/dedup/service/exact_shard.py:81-93 | each of the four counters is added up over all shards |
| `ShardedDedup.ShardedExactDedup.IsDuplicate` | src/indw/dedup/service/exact_shard.py:44-49 | only the shard of the digest is asked and changed, and learns its source; one insertion is counted for a new digest and none for another; the session count of duplicates does not move |
| `ShardedDedup.ShardedExactDedup.AskAll` | src/indw/dedup/service/exact_shard.py:31-49 | a stream of digests gets the verdicts of the unsharded deduplicator |
| `Semantic.ComputeSimhash` | src/indw/dedup/semantic.py:13-26 | the weight loop computes the signature |
| `Semantic.SimhashUnordered` | src/indw/dedup/semantic.py:13-26 | within the word limit the signature sees a bag of words |
| `Semantic.HammingMetric` | src/indw/dedup/semantic.py:29-30 | the distance of signatures is a metric |
| `Semantic.HammingCounts` | src/indw/dedup/semantic.py:29-30 | the distance is the number of bits that differ |
| `Semantic.SimhashIs` | src/indw/dedup/semantic.py:13-26 | a bit is set exactly when at least half of the first 2048 words have it |
| `Semantic.JaccardIs` | src/indw/dedup/semantic.py:37-42 | the overlap is the share of common words, between zero and one |
| `Semantic.BucketMembers` | src/indw/dedup/semantic.py:60-64 | a bucket holds, in order, the texts that agree with its signature in the top eight bits |
| `Semantic.NearHistoryIs` | src/indw/dedup/semantic.py:59-82 | near means: some text of one of the two windows is within the Hamming limit and overlaps enough for that window when both signals are required, and one of the two when not |
| `Semantic.BothRequired` | src/indw/dedup/semantic.py:69-71 | with both required, a text beyond the limit from all of its windows is not near, nor one that shares no word with them |
| `Semantic.BothIsStricter` | src/indw/dedup/semantic.py:69-81 | requiring both makes no text near |
| `Semantic.StreamingSemanticDedup.Matches` | src/indw/dedup/semantic.py:59-82 | the bounded columns answer as the whole history in its two windows |
| `Semantic.StreamingSemanticDedup.Register` | src/indw/dedup/semantic.py:97-112 | registering extends the history; what is shed changes no answer |
| `Semantic.StreamingSemanticDedup.ShouldKeep` | src/indw/dedup/semantic.py:89-95 | the verdict is the history's, and nothing is registered |
| `Semantic.StreamingSemanticDedup.IsNearDuplicate` | src/indw/dedup/semantic.py:114-119 | a text near nothing joins the history, any other is counted |
| `Semantic.RecentTail` | src/indw/dedup/semantic.py:105-107 | the last 128 of the recent list are the last 128 ever registered |
| `Semantic.BucketsGrow` | src/indw/dedup/semantic.py:100-111 | each bucket is the last signatures with its top byte, its tokens aligned |
| `Semantic.ResubmissionNear` | src/indw/dedup/semantic.py:59-82 | a registered text with a word is near on resubmission while fewer than 128 others came since |
| `Semantic.ReplayRebuilds` | src/indw/dedup/semantic.py:97-119 | registering just the kept texts rebuilds the history |
| `SemanticResume.WindowsDecide` | src/indw/dedup/semantic.py:59-119 | histories with the same two windows give every later stream the same verdicts |
| `SemanticResume.SameWindowsIff` | src/indw/dedup/semantic.py:97-112 | a history that lost its start has the same windows exactly when 128 texts followed, and a full bucket of each lost text's bucket |
| `SemanticResume.RecognisesIff` | src/indw/dedup/semantic.py:59-82 | which thresholds make every text with a word near itself |
| `SemanticResume.LessIsNear` | src/indw/dedup/semantic.py:59-82 | losing the start of the history makes no text a duplicate |
| `SemanticResume.Forgotten` | src/indw/dedup/semantic.py:59-82 | a lost text whose bucket was not refilled is a duplicate before and not after |
| `Semantic.VerdictsResume` | src/indw/dedup/semantic.py:114-119 | a second stream depends on the first only through the history it left |
| `Replay.IterTexts` | src/indw/dedup/replay.py:15-26 | rows without usable text are skipped |
| `Replay.TextsOfKept` | src/indw/dedup/replay.py:15-26 | kept texts that are not blank are read back as they were written |
| `Replay.Restore` | src/indw/dedup/replay.py:29-68 | every replayed text reaches both layers, skipped ones reach neither, and the count is of the replayed; nothing in the index is forgotten or renamed, what is new is marked as resumed, and a full replay after a skip counts no duplicates there |
| `Replay.ExactResumesIff` | src/indw/dedup/replay.py:15-58 | the rebuilt exact layer gives every later stream the verdicts of not stopping exactly when each kept text not read back is still in the index |
| `Replay.BlankLost` | src/indw/dedup/replay.py:15-26 | a kept text of white space is not read back, and is let through a second time |
| `Replay.FullReplayResumes` | src/indw/dedup/replay.py:29-58 | with all kept texts replayed the rebuilt semantic layer gives every later stream the verdicts of not stopping |
| `Replay.WindowsResume` | src/indw/dedup/replay.py:29-58 | it does so whatever is replayed, if the two windows are the same |
| `Replay.SemanticResumesIff` | src/indw/dedup/replay.py:29-58 | with the first texts skipped, of which no text kept since outside their bucket is near one, it does so exactly when the windows were refilled since |
| `Replay.KeptCarryDigests` | src/indw/ingest/hash.py:18-37 | the kept texts carry every digest a stream made known |
| `Paragraphs.ParasAreCut` | src/indw/clean/document/segment.py:97 | reading character by character gives what cutting at the blank-line pattern, stripping and dropping blanks gives |
| `Paragraphs.ParasApart` | src/indw/clean/document/segment.py:97 | white space with two newlines separates paragraphs |
| `Paragraphs.ParasJoined` | src/indw/clean/document/segment.py:88-128 | joining by blank lines lists the paragraphs one after another |
| `Paragraphs.ParagraphAlone` | src/indw/clean/document/segment.py:97-107 | a paragraph is its own only paragraph |
| `Paragraphs.ParasInk` | src/indw/clean/document/segment.py:45-59 | cutting into paragraphs loses white space only |
| `Packing.GroupsGreedy` | src/indw/clean/document/segment.py:83-128 | putting each unit into the last group unless something keeps them apart gives groups that fit and could not have taken the first unit of the next |
| `Packing.GreedyUnique` | src/indw/clean/document/segment.py:83-128 | there is only one such grouping |
| `Segment.PackParagraphs` | src/indw/clean/document/segment.py:97-117 | the chunks of a section that is too long are the one greedy grouping of its paragraphs |
| `Segment.Pack` | src/indw/clean/document/segment.py:83-128 | the chunks of all sections are the one greedy grouping of the units |
| `Segment.MergeSmall` | src/indw/clean/document/segment.py:130-138 | each chunk goes into the one before it if that can absorb it |
| `Segment.MergedOfIs` | src/indw/clean/document/segment.py:130-138 | a chunk was absorbed exactly where it is small and the result stays within the limit; nothing is lost |
| `Segment.NoSmallLeft` | src/indw/clean/document/segment.py:130-138 | a chunk left small could not have joined the chunk before it |
| `Segment.UnitsParas` | src/indw/clean/document/segment.py:83-128 | the units hold the paragraphs of the sections, in order |
| `Segment.GroupLength` | src/indw/clean/document/segment.py:16-17 | rounded token counts and separators can hide no more than one width, twice the characters of a token and one, for each token |
| `Segment.ChunkSized` | src/indw/clean/document/segment.py:76-128 | before merging a chunk is one paragraph too long for a chunk, or within the bound of one width per token |
| `Segment.PackedParas` | src/indw/clean/document/segment.py:76-138 | packing keeps every paragraph, in order |
| `Segment.PackedSized` | src/indw/clean/document/segment.py:76-138 | every chunk is one paragraph too long for a chunk, or within that bound |
| `Segment.PackSections` | src/indw/clean/document/segment.py:76-138 | the whole packing: paragraphs kept, chunks bounded, no small chunk left that could have joined |
| `Segmenter.SplitBlocks` | src/indw/clean/document/segment.py:45-59 | the loop yields the blocks: fences, and what stands between them cut at blank lines |
| `Segmenter.NextFenceIs` | src/indw/clean/document/segment.py:8 | a fence is the leftmost one, closed as early as can be |
| `Segmenter.FenceIsBlock` | src/indw/clean/document/segment.py:45-59 | every fence of the text is one whole block, with what stands before it in the blocks before and what stands after it in those after |
| `Segmenter.BlocksOfInk` | src/indw/clean/document/segment.py:45-59 | blocks lose white space only |
| `Segmenter.GroupsAreSections` | src/indw/clean/document/segment.py:62-73 | every group but the first starts with a heading and no other block in a group is one |
| `Segmenter.SplitBySections` | src/indw/clean/document/segment.py:62-73 | blocks are joined group by group, or left alone for a single group; the paragraphs stay |
| `Overlap.SentencesInk` | src/indw/clean/document/segment.py:157 | cutting into sentences loses white space only |
| `Overlap.SentencesAre` | src/indw/clean/document/segment.py:157 | sentences end where white space follows an end mark and nowhere else: a text without such a place is one sentence, and at such a place it is cut in two |
| `Overlap.PiecesAre` | src/indw/clean/document/segment.py:146-163 | an overlap is picked paragraph by paragraph, an atomic one whole, any other as its sentences, stripped and without the blank ones |
| `Overlap.TargetIs` | src/indw/clean/document/segment.py:142-145 | the target is the configured share of the tokens, a fifth at most, rounded down, but at least one |
| `Overlap.TailSentences` | src/indw/clean/document/segment.py:157-168 | the early returns of the sentence loop pick what the specification picks |
| `Overlap.GrowIs` | src/indw/clean/document/segment.py:149-169 | what is picked is the longest tail of the pieces within the target, or a single piece |
| `Overlap.TailOverlapText` | src/indw/clean/document/segment.py:141-169 | the overlap is that tail, joined |
| `Overlap.TailInk` | src/indw/clean/document/segment.py:141-169 | the overlap holds the last ink of the segment before, and is there whenever the ratio is positive and that segment has ink |
| `Overlap.OverlapBound` | src/indw/clean/document/segment.py:141-169 | the overlap is within what its target of tokens can take, or one piece no longer than the segment it is from |
| `Overlap.SegmentBound` | src/indw/clean/document/segment.py:172-182 | how much longer than its chunk a segment can get by its overlap |
| `Overlap.ApplyOverlap` | src/indw/clean/document/segment.py:172-182 | every segment but the first gets the tail of the one before it, overlap included |
| `Overlap.OverlapRepeats` | src/indw/clean/document/segment.py:172-182 | a segment is its chunk, after a blank line and an overlap that repeats the last ink of the segment before, if there is one |
| `Overlap.Repack` | src/indw/clean/document/segment.py:203-209 | chunks over the hard limit are cut into blocks and packed again |
| `Overlap.RepackSplit` | src/indw/clean/document/segment.py:203-209 | each chunk over the limit gives way to the packing of its own blocks, any other stays where it is |
| `Overlap.SectionsAre` | src/indw/clean/document/segment.py:198-200 | packing goes section by section when the text has a heading and some block but the first is one, and else block by block |
| `Overlap.SegmentText` | src/indw/clean/document/segment.py:185-217 | the pipeline end to end; a text that needs no splitting is taken whole, and without splitting one over the hard limit is dropped |
| `Overlap.WholeConserved` | src/indw/clean/document/segment.py:185-217 | with splitting, the segments before overlap hold all the ink of the text in order, and all its paragraphs unless fences are cut out, and each is a paragraph too long for a chunk or within the bound |
| `FenceParts.PartsOfBlocks` | src/indw/clean/document/segment.py:45-59 | a paragraph of a block, cut into blocks again, is that one block |
| `HardLimit.RepackIsIdleAbove` | src/indw/clean/document/segment.py:203-209 | from the bound on packing again changes nothing, on any text |
| `HardLimit.ChunksWithinIff` | src/indw/clean/document/segment.py:185-209 | before overlap: with a limit at or above the bound, the chunks of any text are within it exactly when the paragraphs of its blocks are |
| `HardLimit.HardLimitIff` | src/indw/clean/document/segment.py:185-217 | without overlap: with a limit at or above the bound, the segments of any text are within it exactly when the paragraphs of its blocks are |
| `HardLimit.RepackIsIdle` | src/indw/clean/document/segment.py:203-209 | packing chunks of paragraphs again gives them back, whatever the limit |
| `HardLimit.HardLimitIsIdle` | src/indw/clean/document/segment.py:185-209 | before overlap: without headings and fences the limit decides only whether the text is taken as it is |
| `HardLimit.HardLimitExceeded` | src/indw/clean/document/segment.py:203-209 | before overlap: a paragraph too long for a chunk, and paragraphs that fit one by their tokens, come out whole, however far over the limit |
| `LimitKept.ChunkLimitIff` | src/indw/clean/document/segment.py:185-209 | before overlap: the limits kept for every text of short enough paragraphs are those from the bound on |
| `LimitKept.OverlapOver` | src/indw/clean/document/segment.py:141-182 | with overlap, two words that fill the limit and are too long for a chunk make a segment over it |
| `LimitKept.LimitKeptIff` | src/indw/clean/document/segment.py:185-217 | the segments that come out are within the limit for every text of short enough paragraphs exactly when nothing is split, nothing can be within it, or it is from the bound on and there is no overlap |
| `CodeFences.ProtectCodeFences` | src/indw/clean/meta/strip.py:56-67 | every fence gives way to its numbered placeholder |
| `CodeFences.RestoreCodeFences` | src/indw/clean/meta/strip.py:69-73 | placeholders are replaced one after another over the whole text |
| `CodeFenceProofs.WeaveSplit` | src/indw/clean/document/patterns.py:90 | cutting at the fence pattern loses nothing |
| `CodeFences.ReplaceJoin` | src/indw/clean/meta/strip.py:69-73 | whole-string replacement of a NUL-delimited key is replacement on the segments between NULs |
| `CodeFenceNuls.RestoreTextIff` | src/indw/clean/meta/strip.py:56-73 | for any text, when restoring gives it back, exactly |
| `CodeFenceProofs.RestoreProtectedIff` | src/indw/clean/meta/strip.py:56-73 | for text without NUL, the same in terms of the stretches between fences |
| `CodeFenceProofs.RestoresPlainText` | src/indw/clean/meta/strip.py:56-73 | text without NUL and without the placeholder word is always restored |
| `CodeFenceProofs.FailingText` | src/indw/clean/meta/strip.py:56-73 | a text that does not come back |
| `License.MergeRegions` | src/indw/clean/document/license.py:552-568 | the merge loop folds the regions run by run |
| `License.RunsOfIs` | src/indw/clean/document/license.py:553-567 | each region of a run starts inside what the run has merged to, each run starts at or after the end of the one before, and no region is lost from the runs |
| `License.FoldIsFirstBest` | src/indw/clean/document/license.py:553-566 | a merged region has confidence, kind, action and reason of the first surest region folded into it |
| `License.FoldType` | src/indw/clean/document/license.py:560 | its type is that of the last leading region whose type is known, or of the first region |
| `License.FoldSpan` | src/indw/clean/document/license.py:556-566 | it starts with its run and ends with the furthest region surer than all before it |
| `License.FoldCoversIff` | src/indw/clean/document/license.py:553-566 | it reaches as far as all its regions exactly when each is matched by such a region |
| `License.MergedIs` | src/indw/clean/document/license.py:551-568 | the merged regions fold runs of the regions sorted by start and, from one start, longest first, and are ascending and pairwise disjoint |
| `License.ApplyRemovals` | src/indw/clean/document/license.py:604-623 | before tidying, what is left is exactly the text outside the regions removed |
| `License.TakenOfIs` | src/indw/clean/document/license.py:609-619 | the regions removed are removable and disjoint, and every other removable one starts inside one of them |
| `License.PassedOverIff` | src/indw/clean/document/license.py:609-619 | a removable region is passed over exactly when it starts inside one removed before it |
| `License.RemovalExact` | src/indw/clean/document/license.py:604-623 | on disjoint regions exactly the characters outside the removable ones are kept, in order |
| `License.CutMerged` | src/indw/clean/document/license.py:656-677 | merging and removal together leave exactly the text outside the removable merged regions; tidying takes white space only |
| `Splice.TidyInk` | src/indw/clean/document/license.py:622-623 | tidying loses white space only |
| `Splice.TidyIs` | src/indw/clean/artifact/trim.py:68 | runs of three and more newlines are cut to two, other text is only stripped |
| `Trim.DeleteSpans` | src/indw/clean/artifact/trim.py:59-66 | spans are deleted one after another, those out of bounds skipped; the count is of what went |
| `Trim.DeletedExactly` | src/indw/clean/artifact/trim.py:59-66 | deletion from right to left of disjoint spans leaves exactly the text outside them |
| `Trim.RepeatedSpan` | src/indw/clean/artifact/trim.py:59-66 | a span given twice takes the text after it too |
| `TrimExact.TrimmedKeeps` | src/indw/clean/artifact/trim.py:59-66 | spans that do not overlap leave exactly the text outside them, whatever order they are given in |
| `TrimExact.TrimmedExactIff` | src/indw/clean/artifact/trim.py:59-66 | where the offsets and lengths let no span be skipped, exactly the text outside the spans is left if and only if no two of them overlap |
| `TrimExact.NothingSkippedIff` | src/indw/clean/artifact/trim.py:59-66 | all that the spans hold goes exactly when, from right to left, each that is not empty ends within what is left |
| `Trim.SafeTrimFragments` | src/indw/clean/artifact/trim.py:27-76 | nothing changes in shadow mode or over the policy's ratio; otherwise what goes is within it |
| `Trim.RemovedUnits` | src/indw/clean/artifact/trim.py:34-51 | units go one by one, in order, by tier and kind, and never when protected |
| `Trim.OverBudgetIff` | src/indw/clean/artifact/trim.py:55-57 | too much goes exactly when the share of the text is above the ratio |
| `Splice.KeptSame` | src/indw/clean/artifact/trim.py:59-66 | cuttings that cover the same characters keep the same text |
| `CorpusStats.CorpusStatsStore.LoadFragment` | src/indw/clean/artifact/discovery_corpus.py:127-146 | a row read back, a zero weight as one |
| `CorpusStats.CorpusStatsAccumulator.FindFragment` | src/indw/clean/artifact/discovery_corpus.py:281-287 | the four lookups in their order |
| `CorpusStats.CorpusStatsAccumulator.AdmitUnit` | src/indw/clean/artifact/discovery_corpus.py:281-305 | the fragment of a unit is cached, indexed and given a fingerprint |
| `CorpusStats.CorpusStatsAccumulator.ObserveDocument` | src/indw/clean/artifact/discovery_corpus.py:256-322 | line frequencies grow by the eligible units of the document, document frequencies by their distinct keys, and characters and each position bin by what those units add |
| `CorpusStats.CorpusStatsAccumulator.Get` | src/indw/clean/artifact/discovery_corpus.py:215-225 | a lookup finds exactly what is cached or stored, a stored zero weight as one, and caches it |
| `CorpusStats.CorpusStatsAccumulator.FragmentForText` | src/indw/clean/artifact/discovery_corpus.py:339-349 | a lookup by text finds the fragment of its key, else that of its fingerprint if linked, in cache or store |
| `CorpusStats.CorpusStatsAccumulator.EndBatch` | src/indw/clean/artifact/discovery_corpus.py:324-334 | ageing, write-back and eviction; with a store all counts are kept, and the cache ends within its cap |
| `CorpusStats.CorpusStatsAccumulator.TrimFragmentCache` | src/indw/clean/artifact/discovery_corpus.py:227-246 | eviction goes down a ranking by weight, last batch and frequency |
| `CorpusProofs.FourthLookupIsDead` | src/indw/clean/artifact/discovery_corpus.py:286-287 | the lookup in the store by fingerprint never finds anything |
| `CorpusProofs.ObserveUnitKeeps` | src/indw/clean/artifact/discovery_corpus.py:279-320 | one unit adds one line, its characters, one in its position bin, and one document if it is the first of its key, and keeps histograms and index right |
| `CorpusProofs.PullKeeps` | src/indw/clean/artifact/discovery_corpus.py:215-225 | a lookup changes no count |
| `CorpusProofs.WriteBackKeeps` | src/indw/clean/artifact/discovery_corpus.py:325-331 | write-back changes no count and leaves nothing marked as seen |
| `CorpusProofs.EvictLoses` | src/indw/clean/artifact/discovery_corpus.py:242-244 | evicting an unseen fragment loses its count exactly when no store is attached |
| `CorpusProofs.EvictUnlinks` | src/indw/clean/artifact/discovery_corpus.py:242-246 | eviction unlinks the fingerprints of what was evicted and no others |
| `CorpusProofs.RunConserves` | src/indw/clean/artifact/discovery_corpus.py:256-349 | over any run with a store, lines, documents, characters and each position bin of memory over store add up to what the observed units add; histograms, fingerprint index and saved counts stay right |
| `CorpusProofs.RunCounts` | src/indw/clean/artifact/discovery_corpus.py:256-349 | in particular the line frequencies add up to the eligible units and the document frequencies to the distinct keys of each document |
| `CorpusProofs.GainsAre` | src/indw/clean/artifact/discovery_corpus.py:306-309 | a document adds one to the document frequencies for each key, however often it occurs |
| `CorpusProofs.EligibleUnits` | src/indw/clean/artifact/discovery_corpus.py:272-278 | units count one by one: those of seven kinds, outside fences, with four characters or more |
| `CorpusProofs.AdmittedIs` | src/indw/clean/artifact/discovery_corpus.py:281-305 | a unit counts towards the fragment of its own key if cached, else that of its fingerprint if indexed, else that of its key |
| `CorpusProofs.ObserveOne` | src/indw/clean/artifact/discovery_corpus.py:279-314 | it adds to that fragment and to no other |
| `CorpusProofs.ObservedIs` | src/indw/clean/artifact/discovery_corpus.py:291-320 | it marks that fragment as seen in the batch under way, adds a fiftieth to its weight up to one, gives it a fingerprint if it has none, and leaves all others as they were |
| `CorpusProofs.PositionBinIs` | src/indw/clean/artifact/decompose.py:253-265 | the bin of a unit: below a tenth, a quarter, three quarters and nine tenths of the document |
| `CorpusProofs.EvictsPrefix` | src/indw/clean/artifact/discovery_corpus.py:236-245 | eviction drops a prefix of the ranking, down to the target and no further |
| `CorpusProofs.EndBatchTrims` | src/indw/clean/artifact/discovery_corpus.py:324-334 | a cache over its cap is cut to nine tenths of it, one within it stays whole; what was evicted had no more weight than what stayed, of equal weight was seen no later, and then was in no fewer documents |
| `CorpusProofs.EndedIs` | src/indw/clean/artifact/discovery_corpus.py:324-334 | a fragment seen in the batch keeps its weight, any other decays; what is cached is written to the store, and other rows are left alone |
| `ConfigMerge.MergeDicts` | src/indw/config/loader.py:27-34 | the loop computes the deep merge and leaves its inputs alone |
| `ConfigMerge.MergeAssociativeIff` | src/indw/config/loader.py:27-34 | when deep merge is associative, exactly |
| `ConfigMerge.AssociativityFails` | src/indw/config/loader.py:27-34 | a family of inputs on which it is not |
| `ConfigMerge.CoveredIff` | src/indw/config/loader.py:27-34 | merging below changes nothing exactly when every key is covered at every depth |
| `ConfigMerge.CompatibleMerge` | src/indw/config/loader.py:27-34 | agreement on what is a dictionary survives a merge |
| `ConfigMerge.CompatibleIff` | src/indw/config/loader.py:30-31 | to agree means: at every path where both have something, either both have a dictionary or neither |
| `ConfigMerge.ThawFreezeIff` | src/indw/config/loader.py:37-50 | thawing undoes freezing exactly on values without tuples and with strings for all keys |
| `ConfigCompose.Composer.ComposePath` | src/indw/config/loader.py:123-146 | the recursion with its shared set ends, and yields result or error of the composition function |
| `ConfigCompose.Composer.ComposeParents` | src/indw/config/loader.py:139-143 | the parents merged from first to last, the first error winning |
| `ConfigCompose.ComposeIff` | src/indw/config/loader.py:123-146 | composition succeeds exactly when inheritance unfolds to a finite tree in which no file occurs twice |
| `ConfigCompose.ComposePathsIff` | src/indw/config/loader.py:123-146 | composition succeeds exactly when every file that can be reached loads and is reached on one path only |
| `ConfigCompose.SucceedsOnePath` | src/indw/config/loader.py:128-131 | on success every file is reached on one path only |
| `ConfigCompose.CycleNeverSucceeds` | src/indw/config/loader.py:128-131 | it never succeeds when a cycle can be reached |
| `ConfigCompose.ComposeIsFlat` | src/indw/config/loader.py:139-146 | each file is visited once, and where the files agree on what is a dictionary the result is one merge after another, parents first |
| `ConfigCompose.ExtendsLeaksIff` | src/indw/config/loader.py:132-145 | when an `extends` key is left in the result, exactly |
| `ConfigCompose.ExtendsSays` | src/indw/config/loader.py:132-146 | absent or falsy `extends` leaves a file as it is, a string is one parent, a list is all of them in order, anything else is an error |
| `Evidence.SaturateRange` | src/indw/clean/artifact/evidence_util.py:47-52 | saturation lies in [0, 4/5], is zero only for what is not positive, and 4/5 exactly when the mean of the peers is at most a quarter of the value |
| `Evidence.SaturateMonotone` | src/indw/clean/artifact/evidence_util.py:47-52 | saturation is monotone in the value |
| `Evidence.BaselineIs` | src/indw/clean/artifact/evidence_util.py:57-68 | a baseline depends on greatest value, number of positive values and mean only |
| `Evidence.BaselineRange` | src/indw/clean/artifact/evidence_util.py:57-68 | it lies in [0, 1], is positive exactly when some value is, and with two positive values is the greatest one saturated |
| `Evidence.BaselinePermuted` | src/indw/clean/artifact/evidence_util.py:57-68 | it does not depend on the order |
| `Evidence.BaselineScaled` | src/indw/clean/artifact/evidence_util.py:57-68 | with two positive values it does not depend on the unit |
| `Evidence.SingleNotScaled` | src/indw/clean/artifact/evidence_util.py:64-67 | with exactly one positive value some change of unit changes it |
| `Evidence.BaselineScaledIff` | src/indw/clean/artifact/evidence_util.py:57-68 | the unit matters exactly when there is one positive value |
| `Evidence.SpreadIs` | src/indw/clean/artifact/evidence_util.py:41-45 | the spread of equal values is that value, of others the distance of the extremes |
| `Evidence.UtilityRange` | src/indw/clean/artifact/evidence_model.py:495-500 | utility lies in [0, 4/5], within a fifth and the whole of saturated strength, and is positive exactly when some positive evidence is |
| `Evidence.NoiseTakes` | src/indw/clean/artifact/evidence_model.py:497-499 | without noise utility is the saturated strength; noise takes nothing exactly when there is no negative evidence, and four fifths exactly when it is saturated; exchanging the two sides changes utility by the difference of the two without noise |
| `Evidence.ThresholdRange` | src/indw/clean/artifact/evidence_model.py:519-524 | the threshold lies between a fifth of the positive baseline and the baseline |
| `Evidence.ThresholdIs` | src/indw/clean/artifact/evidence_model.py:519-524 | the threshold is the baseline exactly without negative evidence, falls strictly with what that takes, and is a fifth of it exactly for a saturated negative baseline of one |
| `Evidence.MarginRange` | src/indw/clean/artifact/evidence_util.py:70-71 | the margin lies between utility less threshold and utility |
| `Evidence.MarginIs` | src/indw/clean/artifact/evidence_util.py:70-71 | full coherence leaves the bar at the threshold, none with a spread of one takes it away, and in between it moves evenly |

## Left out

- Databases, files, locks, retries, threads and clocks: a database is a map with insert-or-ignore or
  replace, one writer, and writes that succeed; time stamps are not modelled.
- Floating point: scores, ratios, weights and token estimates are real numbers.
- Scoring by regular expressions, navigation and education roles, the gate and the routing: block
  predicates are parameters.
- The fuzzy layer: its signature gives every lane the same minimum, so nothing about MinHash would be
  true of it.
- `register_hash`, `register_text` and `summary` of the sharded deduplicator: they call methods that
  the deduplicator of a shard does not define.
- The parallel dispatch, the apply coordinator and the merge checkpoint file: a checkpoint is a map
  from source names to offsets.
- How licence regions and trimming verdicts are found, and what cleaning does to the text after the
  removal: stripping of licences collapsed into one line, and the check of code blocks.
- Diagnostics, summaries, and the fields of a fragment that no decision reads (text sample, layout,
  entropy).
- The quality score kept with a recent semantic entry: it is never read.
- Encoder.E5EmbeddingProvider.EmbedBatch: a cached vector is that of some text with the same key, which
  need not be the text itself, because the key leaves truncation out (`SameKeySameInputIff`);
  initialisation, shutdown and latencies are not modelled.
- Encoder.SameKeySameInputIff: takes the digest in a cache key to be injective, so that a key is the
  text it is made of.
- EmbedFilter.StreamingEmbeddingDedup.Evaluate: leaves out the diagnostics counters and the building
  of a document's metadata, which are inputs to it.
- Interleaver.InterleavedSources.Iterate: asks that live sources be scheduled, since otherwise the
  loop does not end (`TerminatesIff`).
- CorpusStats.CorpusStatsAccumulator.EndBatch: says the ranking is sorted as the source sorts it, but
  not in which order ties stand; nine tenths of the cap are taken exactly and rounded down.
- CorpusStats.CorpusStatsAccumulator.ObserveDocument: document frequencies count keys and not documents,
  so that of one fragment can exceed the documents seen when two keys of a document share it; the sums
  are exact (`RunCounts`).
- Segmenter.SplitBlocks: claims ink and not paragraphs where fences are cut out, since a fence can
  stand in the middle of a paragraph.
- Overlap.SegmentText: does not claim that segments respect the hard limit, since the source does not
  enforce it (`LimitKeptIff`).
- Overlap.SegmentBound: bounds a segment by its chunk and its overlap only; how far segments can grow
  along a whole text is not modelled.
- HardLimit.HardLimitIsIdle: is about texts without headings and, where fences are cut out, without
  backticks; with headings packing again can divide a chunk, and below the bound only the sizes of
  `WholeConserved` are claimed of its result.
- LimitKept.LimitKeptIff: takes a word of the letter a to be neither atomic nor a heading, and leaves
  out a maximum of one token, where no two paragraphs share a chunk before small ones are merged.
- TrimExact.TrimmedExactIff: is about spans of which none is skipped as out of bounds; where one is
  skipped only `TrimmedKeeps` is claimed, since the outcome then depends on the characters.
- Replay.SemanticResumesIff: asks that the skipped texts have words and are not near a text kept since
  that could reject them in their place; without that it is not settled which later streams tell the
  difference. The condition is sufficient without any of that (`WindowsResume`, `SameWindowsIff`).
- Replay.IterTexts: skips a row that is valid JSON but no object, where the source stops with an error.
- Evidence.UtilityRange: takes positive and negative evidence as any two lists; which measures go into
  them is not modelled.
- ConfigCompose.Composer.ComposePath: how an entry of `extends` names a file is a parameter; parsing
  is left out.
