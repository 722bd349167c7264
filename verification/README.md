# Verified models of mem-mcp

mem-mcp is a multi-tenant memory service on PostgreSQL with a set of background jobs. This
project models the parts of it whose correctness rests on an argument rather than on reading
one function, and proves those arguments in Dafny 4.11. `dafny verify dfyconfig.toml` checks
everything.

| files | what they model |
|---|---|
| `Wrappers` | the option type and facts about sets and sequences, shared by the others |
| `Reachability`, `Clusters`, `ClusterTheory`, `NeighbourQuery`, `NeighbourLimit` | near-duplicate clustering: the worklist walk over the neighbour relation, and the capped similarity query behind that relation |
| `Text`, `Chunking`, `ChunkTheory`, `ChunkCap` | the deterministic chunker: paragraphs, sentences, hard wrap, greedy packing, the cap on chunks |
| `ContentHash`, `ChunkIndex`, `ChunkIndexTheory`, `ChunkQueue` | the content hash, the chunk-build worker with its backoff table, and whom its queue serves |
| `Drain`, `DrainTheory`, `Drainer`, `DrainOrder` | the async write queue and any number of drainers |
| `Closure`, `ClosureTheory` | account closure: request, cancel, scan, delayed finalize |
| `TokenBuckets`, `WindowLimiter` | the two rate limiters |
| `Scheduler`, `SchedulerTheory` | calendar schedules and the scheduler loop |
| `LikePattern` | the user search pattern |
| `TeamGraph`, `TeamAccess`, `TeamDepth` | the recursive queries over the team graph, the access table that they keep up to date, and the depth check on the graph |
| `MindMap`, `MindMapTheory` | the graduation guard of mind maps |

Conventions. Ids are integers; UUIDs compare like their fixed-width text. Database time and
application time are whole microseconds, limiter clocks are reals. Every database transaction is
one atomic step that commits or has no effect. Clock readings, random tokens, embeddings, the
memory-write tool, Unicode normalisation, lower-casing and the two SHA-256 hashes are parameters;
where a property needs it, a hash is assumed collision-free.

## Findings

Places where the code does not do what its comments or documentation say, each with the exact
condition under which it does.

- Clustering is documented to return the connected components of the similarity graph, and the neighbour query is
  capped at 100. For every answer of the query the documented result comes out in every order of the ids exactly if
  the walk can get from every memory to every similar one (`PromisedForEveryOrder`). While no memory has more
  similar memories than the limit that is so (`UncappedIsPromised`), and the numbers of similar memories for which
  the result is guaranteed are exactly those up to the limit (`LimitDecides`). One more fails in two ways, for every
  limit and with explicit unit vectors: around a hub two clusters overlap (`CappedHubOverlaps`, at 100
  `OneMoreThanTheLimitOverlaps`), and between two groups a component is torn apart in every order, while the
  relation is symmetric and looks in order (`CapTearsApart`).
- The chunk worker's fast path inserts the fetched text but re-reads the hash. A commit leaves the index in
  order exactly if it is not such a commit after the hash changed, or some content that the memory had has both
  the current hash and the fetched chunks (`CommitKeepsIndexExactly`; `HarmlessRace` shows the second case).
  Otherwise the old text stays, counted as fresh (`RaceLeavesWrongText`).
- Content updates are documented to be picked up. An update of a memory with fresh rows is noticed exactly if it
  changes the hash; if not, the rows that stay are those of the new content exactly if its chunks are the same
  (`UpdateNoticedExactly`). An edit of case or spacing keeps the hash and changes the chunks (`FreshMayBeOldText`,
  `CaseEditKeepsHash`, `SpaceEditKeepsHash`).
- The comment on the attempt cap says that a terminal memory stays out until its content changes.
  Nothing in the code revives it (`GivenUpForEver`), and a run reaches a live memory with new, unindexed content
  that is given up (`EditedMemoryStaysGivenUp`).
- The oldest-first queue of the chunk worker is said never to be wedged. A memory without any chunk is a candidate
  again after every pass (`HandledLeavesQueue`), and content of one space has none (`SpaceIsBlank`). While the
  memories in front of it are not edited, a memory is fetched by every long enough run of passes exactly if fewer
  such memories than a batch holds are pending in front of it (`ServedExactly`); behind a full batch of older ones
  no run ever fetches it (`OlderBlanksBlock`), and such a queue is reachable for every batch size (`BlockedQueue`).
- A drained row that is abandoned in flight stays so for ever (`OrphansStay`). A step orphans a row exactly if it
  is a crash or an exception that leaves the row handler, in the worker that has claimed the row
  (`OrphanedExactly`); runs reach an orphan that was never written (`CrashOrphansUnwrittenRow`) and one that was
  written and is never reported (`FailedMarksOrphanWrittenRow`).
- The drain is documented to claim the oldest rows. Its claim orders by tenant first, so every batch it may take is
  the oldest rows exactly if no waiting row overtakes an older one of a higher tenant id: fewer than 50 rows are
  ahead of the first and more than 50 reach through to the second (`OldestFirstExactly`). Fifty newer rows can go
  first (`OldestRowWaits`).
- The drain is documented to keep each tenant's order. A step breaks it exactly if it commits a claim while an
  earlier row of the tenant is queued outside of that claim, gives up a claim while another worker has locked a
  later row, or submits a row older than one that is claimed or locked (`OrderBreaksExactly`); for claimed rows
  alone the second case falls away (`ClaimsOutOfOrderExactly`). A run keeps the order exactly if it has no such
  step (`OrderKeptExactly`). One drainer with each tenant's submissions in time order has none
  (`OneDrainerKeepsTenantOrder`); with two, a later row can be claimed while the earlier one is merely locked
  (`TwoDrainersBreakTenantOrder`).
- Cancelling reads the application's clock, the retention scan reads the database's. A scanned tenant
  can never become active again exactly if the application's clock is past the window too
  (`ScanIsFinalExactly`); however small the skew, a run deletes a cancelled account
  (`SkewedClocksDeleteActive`).
- The registration limiter admits the call that opens a window whatever the limit. A limit below one acts as
  one (`LimitBelowOneActsAsOne`), and every window keeps to its limit exactly if the limit is at least one
  (`LimitIsKeptExactly`).
- `time_to_next` reports a finite wait for requests above the capacity, which are never granted
  (`OverCapacityNeverGranted`; grantable exactly within the capacity, `GrantableExactly`).
- The guard's timestamp shortcut agrees with the plain scan exactly if the map's owner stamp is current
  (`ShortcutIsExact`). Overlapping owner transactions, stamped at their start, can break that
  (`OverlappingWritesHideNodes`).
- An empty guard is documented to mean that the agent has seen everything the owner said. In every run,
  overlapping transactions included, the guard covers everything committed after the last read exactly if there
  is nothing, or no early exit is taken and none of it is stamped at or before that read (`GuardInAnyRun`; with a
  current owner stamp only the last condition remains, `GuardWithCurrentStamp`); a write is reported when it commits exactly if
  its stamp is after the last read's (`WriteIsReportedExactly`). An owner write that begins before a read and
  commits after it is missed by guard and scan alike (`LateCommitIsMissed`).
- A unit test expects a path count of 1 for one direct membership. The recompute query joins two sets of rows by
  UNION ALL, and the rows of walks that stay in the target team are in both: one membership counts as 2
  (`OneMembershipCountsTwice`). The count is the number of different path endings exactly if the user is no direct
  member (`CountIsExact`). That is not the number of paths either: two teams with the same role in a third count
  once (`TwoPathsCountOnce`). The count is the number of paths exactly if as many rows count twice as paths share
  their ending with another; without a direct membership, exactly if none do (`CountIsPathsExactly`).
- Effective access is documented as the union over all paths in the team graph. The depth check accepts a team
  membership exactly if no chain of more than five team memberships results (`AcceptedExactly`), so a user can be
  six assignments from a team and no more (`SixIsTheMost`), while the queries follow five. Accepted memberships
  alone lead to a user without access to a team that a chain joins it to (`AcceptedGraphMissesUser`). Every joined
  pair is found exactly if every pair joined by six assignments is (`AllPairsFoundExactly`), and every role at the
  end of a chain counts exactly if those at the end of six do (`AllEndsAttainedExactly`); then access is the union
  over all chains (`AccessIsUnionOfChains`).

## Model

| member | source | states |
|---|---|---|
| `Clusters.BuildClusters` | src/mem_mcp/memory/similarity.py:161-182 | the nested worklist loops terminate on any relation and return, start by start, the sorted list of the start plus the neighbours of everything it newly reaches, without the lists of size one |
| `Clusters.Explore` | src/mem_mcp/memory/similarity.py:167-179 | one start visits exactly its forward reach, and its cluster is the start plus the neighbours of what was not visited before |
| `Clusters.Absorb` | src/mem_mcp/memory/similarity.py:176-179 | every neighbour joins the cluster, and only those not in it join the frontier |
| `Clusters.Sort` | src/mem_mcp/memory/similarity.py:181 | a cluster is returned as its members, each once, in increasing order |
| `ClusterTheory.AnyRelation` | src/mem_mcp/memory/similarity.py:33-33 | for every relation, even one-sided through the neighbour cap, each cluster lies within forward reach of one of its members and every memory with a neighbour is in some cluster |
| `ClusterTheory.SymmetricResult` | src/mem_mcp/memory/similarity.py:138-142 | for a symmetric relation the lists are exactly the components of size two or more, each once, sorted, and isolated memories are dropped |
| `ClusterTheory.ComponentsForEveryOrder` | src/mem_mcp/memory/similarity.py:150-182 | the components of the relation that the query returned come out for every order of the ids if and only if linked memories that have neighbours reach each other |
| `ClusterTheory.SymmetricIsBalanced` | src/mem_mcp/memory/similarity.py:138-142 | every symmetric neighbour relation meets that condition |
| `NeighbourQuery.UncappedIsSymmetric` | src/mem_mcp/memory/similarity.py:106-129 | if no memory has more similar memories than the limit, whatever answers the query gives form a symmetric relation |
| `NeighbourQuery.PromisedForEveryOrder` | src/mem_mcp/memory/similarity.py:138-151 | for every corpus, limit and answer of the query, the components of the similarity graph come out in every order of the ids if and only if the walk can get from every memory to every similar one |
| `NeighbourQuery.UncappedIsPromised` | src/mem_mcp/memory/similarity.py:106-129 | within any limit they do |
| `NeighbourQuery.UncappedCorpusIsPromised` | src/mem_mcp/memory/similarity.py:33 | the same for the limit of 100 |
| `NeighbourLimit.HubIsRealizable` | src/mem_mcp/memory/similarity.py:106-123 | the scores of the hub are the cosines of unit vectors |
| `NeighbourLimit.CappedHubOverlaps` | src/mem_mcp/memory/similarity.py:122 | for every limit of at least one, embeddings with one more memory similar to a hub than the limit give clusters that share the hub |
| `NeighbourLimit.OneMoreThanTheLimitOverlaps` | src/mem_mcp/memory/similarity.py:33 | 101 similar memories of one memory are enough to make clusters overlap |
| `NeighbourLimit.TwoGroupsIsRealizable` | src/mem_mcp/memory/similarity.py:106-123 | the scores of the two groups are the cosines of unit vectors in the plane |
| `NeighbourLimit.CapTearsApart` | src/mem_mcp/memory/similarity.py:138-142 | for every limit of at least one, embeddings for which the components of a symmetric relation are returned in every order and those of the similarity graph in none |
| `NeighbourLimit.LimitDecides` | src/mem_mcp/memory/similarity.py:122 | the components of the similarity graph are guaranteed for all embeddings with up to n similar memories each if and only if n is at most the limit |
| `Text.MatchEndIsLongest` | src/mem_mcp/memory/chunking.py:31-35 | the two separator patterns are matched greedily: the longest match at a position, and a match whenever there is one |
| `Text.SplitAlternates` | src/mem_mcp/memory/chunking.py:42 | splitting cuts at separators only and removes nothing but them |
| `Text.PiecesHoldNoSeparator` | src/mem_mcp/memory/chunking.py:66 | no piece of a split holds a separator any more |
| `Text.StripIsExact` | src/mem_mcp/memory/chunking.py:58 | stripping removes exactly the whitespace at both ends |
| `Chunking.WrapSentence` | src/mem_mcp/memory/chunking.py:43-47 | the hard-wrap loop cuts a sentence into maximal pieces and a non-empty rest |
| `Chunking.SplitOversizeParagraph` | src/mem_mcp/memory/chunking.py:38-48 | an oversize paragraph becomes its sentences in order, each wrapped |
| `Chunking.PackUnits` | src/mem_mcp/memory/chunking.py:75-86 | the packing loop closes a group exactly when the next unit would exceed the target |
| `Chunking.SplitIntoChunks` | src/mem_mcp/memory/chunking.py:51-88 | blank content gives no chunk, short content itself, and longer content its paragraphs and sentences packed in order and cut off after 128 chunks |
| `ChunkTheory.ShortContentIsOneChunk` | src/mem_mcp/memory/chunking.py:54-62 | a content of up to 2,000 characters once stripped is one chunk, the stripped text |
| `ChunkTheory.NoChunksExactly` | src/mem_mcp/memory/chunking.py:54-60 | there is no chunk if and only if the content is whitespace only |
| `ChunkTheory.JoinConcat` | src/mem_mcp/memory/chunking.py:81 | units are joined by one blank line |
| `ChunkTheory.ChunksKeepContent` | src/mem_mcp/memory/chunking.py:58-88 | the non-whitespace characters of the chunks are those of the content, in order, and a prefix of them if the cap is reached |
| `ChunkTheory.ChunkSizes` | src/mem_mcp/memory/chunking.py:27-29 | every chunk is non-empty and at most 2000 characters, one of several units at most 1198, and there are at most 128 |
| `ChunkTheory.WrapCutsLate` | src/mem_mcp/memory/chunking.py:43-45 | hard-wrapped pieces are consecutive slices, all of maximal size but the last |
| `ChunkTheory.ParagraphCuts` | src/mem_mcp/memory/chunking.py:67-73 | a paragraph that fits stays whole; no piece of a longer one reaches across the end of a sentence |
| `ChunkTheory.NoUnitCrossesBlankLine` | src/mem_mcp/memory/chunking.py:6-12 | no unit reaches across a blank line |
| `ChunkTheory.PackingIsOptimal` | src/mem_mcp/memory/chunking.py:78-86 | no order-preserving grouping into single units and groups within the target uses fewer chunks |
| `ChunkCap.PackIsTight` | src/mem_mcp/memory/chunking.py:80-82 | a group is closed only when the next unit would take it over the target |
| `ChunkCap.UnitsCost` | src/mem_mcp/memory/chunking.py:38-73 | across all three levels of splitting the units, each with one separator unless hard-wrapped, take no more than the text and one separator |
| `ChunkCap.UnitsCharge` | src/mem_mcp/memory/chunking.py:84 | what packing charges is at most one and a half times the text |
| `ChunkCap.ChunkCount` | src/mem_mcp/memory/chunking.py:75-86 | every further group needs 599 and a half characters more |
| `ChunkCap.CapNeedsLongText` | src/mem_mcp/memory/chunking.py:88 | no content of up to 76,736 characters loses anything to the cap |
| `ChunkCap.ShortestLoss` | src/mem_mcp/memory/chunking.py:88 | a text of 76,737 characters does |
| `ChunkCap.CapThreshold` | src/mem_mcp/memory/chunking.py:14-17 | contents of up to n characters are guaranteed to be kept whole if and only if n is at most 76,736 |
| `ChunkCap.LongTextLosesContent` | src/mem_mcp/memory/chunking.py:14-17 | content with more than 256,000 non-whitespace characters always loses some |
| `ContentHash.HashIsNormalForm` | src/mem_mcp/memory/normalize.py:35-37 | two texts have the same hash exactly if they have the same normal form |
| `ContentHash.CollapseIdempotent` | src/mem_mcp/memory/normalize.py:29-32 | collapsing whitespace twice is collapsing it once |
| `ContentHash.SameHashSameCharacters` | src/mem_mcp/memory/normalize.py:18-32 | texts with the same hash have the same folded non-whitespace characters |
| `ContentHash.CollapseKeepsWords` | src/mem_mcp/memory/normalize.py:15-32 | collapsing keeps the words of a text |
| `ContentHash.SameHashSameWords` | src/mem_mcp/memory/normalize.py:15-32 | equal hashes mean equal words once normalised, stripped and lower-cased |
| `ChunkIndex.ChunkStore.RecordFailure` | src/mem_mcp/jobs/chunk_build.py:73-82 | the upsert of one failure: attempts, next time, terminal flag |
| `ChunkIndex.ChunkStore.EmbedAll` | src/mem_mcp/jobs/chunk_build.py:139-154 | no error if and only if every text embeds; otherwise the kind of the first call that fails |
| `ChunkIndex.ChunkStore.NumberAll` | src/mem_mcp/jobs/chunk_build.py:170-179 | the insert loop numbers the chunks from 0 and tags all of them with the fetched hash |
| `ChunkIndex.ChunkStore.BuildChunksForMemory` | src/mem_mcp/jobs/chunk_build.py:123-181 | without chunks nothing happens; if an embed call that is needed fails, rows stay and a failure of the kind of the first such call is recorded; if the insert fails, one of no special kind; otherwise the memory has its numbered chunks and no failure record; other memories are untouched |
| `ChunkIndex.BuildIsAsTold` | src/mem_mcp/jobs/chunk_build.py:133-181 | the same of the functions that the rest speaks through |
| `ChunkIndex.ChunkStore.FetchCandidates` | src/mem_mcp/jobs/chunk_build.py:51-67 | the query returns the oldest candidates in order, as many as the limit allows |
| `ChunkIndex.ChunkStore.RunPass` | src/mem_mcp/jobs/chunk_build.py:202-224 | a pass gives each fetched memory what building it alone would give, touches nothing else, and each field of its tally is the number of memories with that outcome |
| `ChunkIndex.ChunkStore.RunChunkBuild` | src/mem_mcp/jobs/chunk_build.py:184-224 | fetch and pass together |
| `ChunkIndex.HandledLeavesQueue` | src/mem_mcp/jobs/chunk_build.py:51-67 | a handled candidate is a candidate no longer, unless it has no chunks |
| `ChunkQueue.FewBlanksServe` | src/mem_mcp/jobs/chunk_build.py:36-40 | with fewer pending blank memories in front than a batch holds, every run of more passes than the memories in front have tries fetches the memory |
| `ChunkQueue.ManyBlanksStarve` | src/mem_mcp/jobs/chunk_build.py:133-135 | otherwise runs of any length never fetch it |
| `ChunkQueue.ServedExactly` | src/mem_mcp/jobs/chunk_build.py:208-211 | every long enough run fetches a pending memory if and only if fewer blank ones are pending in front of it than a batch holds |
| `ChunkQueue.OlderBlanksBlock` | src/mem_mcp/jobs/chunk_build.py:65-66 | no run fetches a memory behind a full batch of strictly older blank candidates |
| `ChunkQueue.BlockedQueue` | src/mem_mcp/jobs/chunk_build.py:65-66 | such a queue is reachable for every batch size |
| `ChunkQueue.SpaceIsBlank` | src/mem_mcp/memory/chunking.py:58 | a content of one space has no chunks |
| `ChunkIndexTheory.CommitKeepsIndexExactly` | src/mem_mcp/jobs/chunk_build.py:89-93 | a commit leaves the index in order if and only if it is not a fast-path commit after the hash changed, or some content the memory had has the current hash and the fetched chunks |
| `ChunkIndexTheory.HarmlessRace` | src/mem_mcp/jobs/chunk_build.py:89-93 | a reachable racing commit whose rows are those of the current content |
| `ChunkIndexTheory.IndexAlwaysOk` | src/mem_mcp/jobs/chunk_build.py:164-180 | in every run without such a race the rows of a memory are none, or the numbered chunks of one content it had, all tagged with that content's hash |
| `ChunkIndexTheory.BuildIsStep` | src/mem_mcp/jobs/chunk_build.py:123-181 | building a fetched memory is the skip, fail or commit step of that protocol, permanent if and only if the first failing embed call is |
| `ChunkIndexTheory.FreshMeansSameNormalForm` | src/mem_mcp/jobs/chunk_build.py:60-63 | rows treated as fresh come from a content with the normal form of the current one |
| `ChunkIndexTheory.RaceLeavesWrongText` | src/mem_mcp/jobs/chunk_build.py:167-168 | a reachable state in which a race has left old text that no pass will repair |
| `ChunkIndexTheory.UpdateNoticedExactly` | src/mem_mcp/jobs/chunk_build.py:42-44 | after an update of a memory with fresh rows it is still fresh if and only if the hash is the same, and then its rows are those of the new content if and only if the chunks are the same |
| `ChunkIndexTheory.NoticedUpdateIsQueued` | src/mem_mcp/jobs/chunk_build.py:60-64 | such an update makes a live memory a candidate if and only if the hash changed and it is neither backing off nor given up |
| `ChunkIndexTheory.FreshMayBeOldText` | src/mem_mcp/jobs/chunk_build.py:42-44 | a reachable state in which fresh rows hold an older text of the same normal form |
| `ChunkIndexTheory.SpaceEditKeepsHash` | src/mem_mcp/memory/normalize.py:15-32 | two texts that differ in spacing, with the same hash and different chunks |
| `ChunkIndexTheory.CaseEditKeepsHash` | src/mem_mcp/memory/normalize.py:15-32 | two texts that differ in case, with the same hash under any lower-casing and different chunks |
| `ChunkIndexTheory.ClampIsHarmless` | src/mem_mcp/jobs/chunk_build.py:78 | the exponent clamp at 7 never changes the delay |
| `ChunkIndexTheory.FailuresAreSpaced` | src/mem_mcp/jobs/chunk_build.py:64-82 | between two successes a memory is tried at most the configured number of times, never after a permanent failure, and each try waits for the delay of the failure before it |
| `ChunkIndexTheory.CandidateExactly` | src/mem_mcp/jobs/chunk_build.py:51-67 | in every run a memory is a candidate if and only if it is live, no row carries the hash of its content, and its tries since the last success leave another one whose delay is over |
| `ChunkIndexTheory.GivenUpForEver` | src/mem_mcp/jobs/chunk_build.py:36-40 | a terminal memory is never selected again, whatever its content becomes |
| `ChunkIndexTheory.EditedMemoryStaysGivenUp` | src/mem_mcp/jobs/chunk_build.py:36-40 | a reachable live memory whose content has changed, is not indexed, and is given up |
| `DrainTheory.StepKeepsInv` | src/mem_mcp/jobs/async_write_drain.py:56-121 | every step of any worker keeps the agreement of rows, histories and worker states |
| `DrainTheory.AtMostOnce` | src/mem_mcp/jobs/async_write_drain.py:28-29 | in every interleaving a request is claimed at most once and written at most once, attempts are 0 exactly while queued and 1 afterwards, and no two workers hold it |
| `DrainTheory.FinishedRowsTellTheTruth` | src/mem_mcp/jobs/async_write_drain.py:186-219 | a finished row had exactly one write, and a succeeded row names the memory that write returned |
| `DrainTheory.RowsOnlyMoveForward` | src/mem_mcp/jobs/async_write_drain.py:66-76 | rows go from queued to in flight to a final state that never changes again |
| `DrainTheory.OrphansStay` | src/mem_mcp/jobs/async_write_drain.py:273-282 | an in-flight row that no worker knows of stays in flight for ever |
| `DrainTheory.OrphanedExactly` | src/mem_mcp/jobs/async_write_drain.py:98-121 | a step orphans a row if and only if it is a crash or an exception that leaves the row handler, in the worker that holds the row after its claim committed |
| `DrainTheory.CrashOrphansUnwrittenRow` | src/mem_mcp/jobs/async_write_drain.py:56-82 | a run that leaves a row in flight for ever without a write |
| `DrainTheory.FailedMarksOrphanWrittenRow` | src/mem_mcp/jobs/async_write_drain.py:98-121 | a run that leaves a written row in flight for ever |
| `DrainOrder.OrderBreaksExactly` | src/mem_mcp/jobs/async_write_drain.py:59-60 | a step puts the rows of a tenant out of order if and only if it commits a claim without an earlier queued row, gives up a claim while another worker has locked a later row, or submits a row older than a claimed or locked one |
| `DrainOrder.ClaimsOutOfOrderExactly` | src/mem_mcp/jobs/async_write_drain.py:59-60 | a claimed row is put before an earlier queued one if and only if a claim commits without an earlier queued row or a row arrives that is older than a claimed one |
| `DrainOrder.OrderKeptExactly` | src/mem_mcp/jobs/async_write_drain.py:59-60 | a run keeps the order in all its states if and only if it has no such step |
| `DrainOrder.OneDrainerKeepsTenantOrder` | src/mem_mcp/jobs/async_write_drain.py:59-60 | in every run with one drainer and each tenant's submissions in time order, no row is claimed while an earlier one of its tenant is queued |
| `DrainOrder.TwoDrainersBreakTenantOrder` | src/mem_mcp/jobs/async_write_drain.py:71-75 | with two drainers a later row is claimed while another worker still has the earlier one of its tenant locked |
| `DrainOrder.AbortBreaksTenantOrder` | src/mem_mcp/jobs/async_write_drain.py:56-82 | a claim given up leaves the earlier row of a tenant behind a locked later one |
| `DrainOrder.OldestFirstExactly` | src/mem_mcp/jobs/async_write_drain.py:10 | every batch the claim may take is the oldest rows if and only if no pair of waiting rows, a newer one of a lower tenant id with fewer than 50 rows ahead of it and an older one that more than 50 rows reach through to, is in the queue |
| `DrainOrder.OldestRowWaits` | src/mem_mcp/jobs/async_write_drain.py:71-75 | a reachable queue whose oldest row is not in the claimed batch |
| `DrainTheory.QuietQueueIsSettled` | src/mem_mcp/jobs/async_write_drain.py:241-246 | without those, when all workers are idle each row is queued and untouched or finished after one write |
| `Drainer.SelectBatch` | src/mem_mcp/jobs/async_write_drain.py:71-75 | the claim takes the first rows by tenant and submission time, up to the limit |
| `Drainer.DrainWorker.ClaimBatch` | src/mem_mcp/jobs/async_write_drain.py:56-82 | the claim skips locked rows, flags the batch in flight, and is a run of protocol steps |
| `Drainer.DrainWorker.ProcessOne` | src/mem_mcp/jobs/async_write_drain.py:85-121 | one row: a write that returned and was marked shows success and its memory, a write that raised or whose success mark failed shows failure and that error; an exception gets out if and only if the payload is bad or the failure mark fails too; a run of protocol steps |
| `Drainer.DrainWorker.ProcessBatch` | src/mem_mcp/jobs/async_write_drain.py:241-246 | the same for the rows of a batch, up to the first exception |
| `Drainer.DrainWorker.DrainOnce` | src/mem_mcp/jobs/async_write_drain.py:241-246 | an iteration claims up to 50 rows; those handled show what happened to them, the rest of the batch is in flight, all others are untouched; it raises if and only if some row of the batch makes an exception get out |
| `Closure.ClosureStore.RequestClosure` | src/mem_mcp/identity/lifecycle.py:106-140 | each error exactly in its case, and otherwise the pending row with the time of this call |
| `Closure.ClosureStore.CancelClosure` | src/mem_mcp/identity/lifecycle.py:200-238 | the error cases in order, and the row back to active |
| `Closure.ClosureStore.FinalizeClosure` | src/mem_mcp/identity/lifecycle.py:270-323 | only existence is checked; the row becomes deleted |
| `Closure.ClosureStore.RunRetention` | src/mem_mcp/jobs/retention_deletion.py:92-140 | everyone due is deleted unless its own transaction fails, one failure does not stop the others, and the statistics add up |
| `ClosureTheory.CancelNeedsNewestToken` | src/mem_mcp/identity/lifecycle.py:213-226 | a cancel succeeds exactly with the newest token and within a day |
| `ClosureTheory.WindowRunsFromRequest` | src/mem_mcp/identity/lifecycle.py:125-138 | in every behaviour a pending closure can be cancelled if and only if the token is that of the newest accepted request and the application's clock is within 24 hours of that request, and is due if and only if the database's clock is past them |
| `ClosureTheory.OldTokensAreDead` | src/mem_mcp/identity/lifecycle.py:213-217 | a token of an earlier request never cancels a later one |
| `ClosureTheory.CancelOrDue` | src/mem_mcp/identity/lifecycle.py:224-226 | on one clock, cancelling and scanning are enabled on complementary sides of 24 hours |
| `ClosureTheory.DeletedIsFinal` | src/mem_mcp/identity/lifecycle.py:308-323 | deleted is absorbing |
| `ClosureTheory.ScanIsFinalExactly` | src/mem_mcp/jobs/retention_deletion.py:92-100 | a scanned tenant can never be active again if and only if the application's clock is past the window |
| `ClosureTheory.FinalizeIsSafe` | src/mem_mcp/jobs/retention_deletion.py:112-133 | in every run whose database clock is not ahead of the application's, finalize never hits an active tenant |
| `ClosureTheory.SkewedClocksDeleteActive` | src/mem_mcp/identity/lifecycle.py:85-93 | for every positive skew of the database's clock a run finalizes an active tenant |
| `TokenBuckets.TokenBucket.TryTake` | src/mem_mcp/ratelimit/token_bucket.py:45-58 | granted if and only if the refilled bucket holds enough, and then it holds exactly that much less |
| `TokenBuckets.TokenBucket.TimeUntil` | src/mem_mcp/ratelimit/token_bucket.py:60-75 | refill, then zero or the missing tokens over the rate |
| `TokenBuckets.TokenBucket.RefillTo` | src/mem_mcp/ratelimit/token_bucket.py:77-84 | the level grows with the clock up to the capacity and ignores readings that go back |
| `TokenBuckets.WaitingIsTakingNothing` | src/mem_mcp/ratelimit/token_bucket.py:69-71 | asking for the waiting time acts on the bucket like taking nothing |
| `TokenBuckets.LevelStaysInRange` | src/mem_mcp/ratelimit/token_bucket.py:17-22 | in every run the level stays between 0 and the capacity, whatever the clock does |
| `TokenBuckets.ManyRefillsAreOne` | src/mem_mcp/ratelimit/token_bucket.py:79-84 | any number of refills equals one refill to the highest reading |
| `TokenBuckets.Conservation` | src/mem_mcp/ratelimit/token_bucket.py:54-57 | tokens handed out plus tokens left never exceed the start plus what was earned |
| `TokenBuckets.ExactConservation` | src/mem_mcp/ratelimit/token_bucket.py:54-57 | in every run tokens handed out and tokens left equal the start and what was earned, less what the capacity cut off |
| `TokenBuckets.AllGrantedExactly` | src/mem_mcp/ratelimit/token_bucket.py:45-58 | all requests of a run are granted if and only if each beginning of it asks for no more than was there and was earned and not cut off |
| `TokenBuckets.BurstIsGranted` | src/mem_mcp/ratelimit/token_bucket.py:54-57 | at one reading all requests are granted whose sum the bucket holds, and it then holds exactly the rest |
| `TokenBuckets.WindowBound` | src/mem_mcp/ratelimit/token_bucket.py:45-58 | between any two calls of any run at most the capacity plus the rate times the advance of the highest reading is admitted |
| `TokenBuckets.LastIsHighWater` | src/mem_mcp/ratelimit/token_bucket.py:81-84 | the remembered time is the highest reading so far |
| `TokenBuckets.WaitIsExact` | src/mem_mcp/ratelimit/token_bucket.py:69-75 | for a request within the capacity the reported wait is enough and any shorter one is not |
| `TokenBuckets.WaitIsShortfall` | src/mem_mcp/ratelimit/token_bucket.py:69-75 | for every request the wait times the rate is what is missing, zero if nothing is, and a division by zero if and only if the rate is zero |
| `TokenBuckets.GrantableExactly` | src/mem_mcp/ratelimit/token_bucket.py:83 | a request can be granted later if and only if it fits the capacity |
| `TokenBuckets.OverCapacityNeverGranted` | src/mem_mcp/ratelimit/token_bucket.py:72-75 | a larger request is never granted although a finite wait is reported |
| `TokenBuckets.RefusalIsInvisible` | src/mem_mcp/ratelimit/token_bucket.py:51-52 | on a forward clock a refused request leaves no trace in later outcomes |
| `WindowLimiter.InMemoryRateLimiter.CheckAndConsume` | src/mem_mcp/auth/dcr.py:375-384 | the outcome and the new window depend on this key only |
| `WindowLimiter.WindowAdmitsLimit` | src/mem_mcp/auth/dcr.py:378-384 | one window admits at most the limit |
| `WindowLimiter.IntervalBound` | src/mem_mcp/auth/dcr.py:375-384 | any half-open interval of one window length holds at most twice the limit, less one, admissions of a key |
| `WindowLimiter.EveryKeyBounded` | src/mem_mcp/auth/dcr.py:371-384 | the same for each key in any run of calls over any keys |
| `WindowLimiter.BoundIsAttained` | src/mem_mcp/auth/dcr.py:378-380 | for every limit and length some run reaches that bound |
| `WindowLimiter.LimitBelowOneActsAsOne` | src/mem_mcp/auth/dcr.py:378-380 | with a limit below one every run admits what a limit of one would |
| `WindowLimiter.LimitIsKeptExactly` | src/mem_mcp/auth/dcr.py:378-384 | every window of every run admits at most the limit if and only if the limit is at least one |
| `WindowLimiter.KeysAreIndependent` | src/mem_mcp/auth/dcr.py:377-379 | calls on other keys never change the outcome |
| `Scheduler.NextAfter` | src/mem_mcp/jobs/scheduler.py:64-72 | the minute-by-minute walk and its exhausted look-ahead |
| `Scheduler.NextIsLeast` | src/mem_mcp/jobs/scheduler.py:64-71 | the result is the least matching minute strictly after now |
| `Scheduler.LookAheadSuffices` | src/mem_mcp/jobs/scheduler.py:36 | the look-ahead is exhausted if and only if no minute matches at all, which is if and only if some field allows no value of its range |
| `Scheduler.CalendarIsRight` | src/mem_mcp/jobs/scheduler.py:50-62 | minute, hour and weekday of every minute, counted from a known Monday |
| `Scheduler.JobScheduler.ComputeNext` | src/mem_mcp/jobs/scheduler.py:81-82 | the next time of either kind of schedule |
| `Scheduler.JobScheduler.Start` | src/mem_mcp/jobs/scheduler.py:276-281 | start-up fails exactly on a schedule that can never fire, and otherwise schedules every job |
| `Scheduler.JobScheduler.RunTurn` | src/mem_mcp/jobs/scheduler.py:288-298 | a turn launches exactly the due jobs, once each, in order, for the slot they had; those are scheduled anew from the end of their own run, the others are untouched; and the sleep is computed |
| `Scheduler.JobScheduler.RunForever` | src/mem_mcp/jobs/scheduler.py:287-298 | any number of turns of the loop |
| `SchedulerTheory.JobsAreIndependent` | src/mem_mcp/jobs/scheduler.py:290-293 | a job's launches depend on its own schedule and the readings only |
| `SchedulerTheory.RunsAreWellTimed` | src/mem_mcp/jobs/scheduler.py:279-298 | on every forward clock a job never fires before its slot, its slots strictly increase past each launch, and every calendar slot matches |
| `SchedulerTheory.ExactRunsMissNothing` | src/mem_mcp/jobs/scheduler.py:294-298 | with instant jobs and exact sleeps every launch is less than a second late and every matching minute since start-up is fired |
| `SchedulerTheory.SleepIsClamped` | src/mem_mcp/jobs/scheduler.py:296-297 | the sleep ends at the soonest next run if that is one to sixty seconds ahead, lasts one second if it is sooner and sixty if it is later, and without jobs ends sixty seconds after the turn began |
| `SchedulerTheory.IntervalIsKept` | src/mem_mcp/jobs/scheduler.py:75-82 | an instant interval job is due again exactly one interval after each launch |
| `LikePattern.EscapeIsSimultaneous` | src/mem_mcp/admin/service.py:65-72 | the three sequential replacements are one simultaneous map |
| `LikePattern.PatternIsSubstring` | src/mem_mcp/admin/service.py:118 | under LIKE with backslash escape the pattern matches exactly the strings that contain the query |
| `LikePattern.ILikeIsSubstring` | src/mem_mcp/admin/service.py:126-127 | case-insensitive matching is substring search up to case folding |
| `LikePattern.SearchIsSubstringSearch` | src/mem_mcp/admin/service.py:75-134 | a search rejects a query under two characters, and otherwise returns, newest first, the newest of exactly the users that mention the stripped query: 20 by default, or as many as asked for between 1 and 100 |
| `LikePattern.BackslashLastIsWrong` | src/mem_mcp/admin/service.py:68-70 | replacing the backslash last finds text that does not hold the query |
| `TeamGraph.RecursiveQuery` | src/mem_mcp/jobs/refresh_team_access.py:49-62 | a recursive UNION query terminates on any graph and returns all levels up to the depth limit |
| `TeamGraph.RowsAreWalks` | src/mem_mcp/teams/effective_access.py:68-94 | its rows are exactly those of the walks of one to five active assignments, each with the role of the last one |
| `TeamGraph.QueryIsBoundedReach` | src/mem_mcp/jobs/refresh_team_access.py:49-65 | the job's query yields exactly the pairs joined by an active chain of one to five assignments |
| `TeamGraph.RecomputeAccess` | src/mem_mcp/teams/effective_access.py:23-127 | the two recursive queries and their aggregate |
| `TeamGraph.RecomputeAgreesWithReach` | src/mem_mcp/teams/effective_access.py:104-122 | the recompute query finds a path if and only if the job's query yields the pair |
| `TeamGraph.AccessIsUnionOfPaths` | src/mem_mcp/teams/effective_access.py:96-111 | over the paths of up to five assignments the role class is the highest and a permission is granted if and only if some path grants it |
| `TeamGraph.CountIsExact` | src/mem_mcp/teams/effective_access.py:96-111 | the path count is the number of different endings if and only if the user is no direct member, and is higher otherwise |
| `TeamGraph.CountIsPathsExactly` | src/mem_mcp/teams/effective_access.py:104-114 | the count is the number of paths if and only if as many rows count twice as paths share their ending with another; without a direct membership if and only if none do |
| `TeamGraph.TwoPathsCountOnce` | src/mem_mcp/teams/effective_access.py:83-93 | two paths through teams with the same role count as one |
| `TeamGraph.OneMembershipCountsTwice` | tests/unit/test_effective_access_recompute.py:48 | one active membership alone gives a path count of two |
| `TeamGraph.AncestorsAreEnds` | src/mem_mcp/teams/dag.py:52-76 | ancestors are exactly the ends of walks of one to five active team memberships; descendants are the same on turned edges |
| `TeamDepth.CanAddTeamAsMember` | src/mem_mcp/teams/dag.py:101-172 | the cycle check, then the two depth queries and their sum |
| `TeamDepth.AcceptedExactly` | src/mem_mcp/teams/dag.py:106-131 | on a graph without chains of more than five team memberships the check accepts a new one if and only if that stays so |
| `TeamDepth.ChangeIsOneMembership` | src/mem_mcp/teams/assignments.py:57-71 | an assignment replaces one membership and leaves all others; a removal removes one |
| `TeamDepth.KeysStayUnique` | alembic/versions/0022_2026_05_29_team_role_assignments.py:38 | a member never has two assignments in one team |
| `TeamDepth.GraphsStayShallow` | src/mem_mcp/teams/assignments.py:53-71 | it stays so in every run of assignments and removals |
| `TeamDepth.SixIsTheMost` | src/mem_mcp/teams/dag.py:124-131 | in every such graph a chain from a user to a team has at most six assignments |
| `TeamDepth.AcceptedGraphMissesUser` | src/mem_mcp/teams/effective_access.py:7-9 | accepted memberships that join a user to a team to which the queries find no path |
| `TeamDepth.AllPairsFoundExactly` | src/mem_mcp/teams/effective_access.py:93 | every pair joined by a chain of any length is found if and only if every pair joined by exactly six assignments is |
| `TeamDepth.AllEndsAttainedExactly` | src/mem_mcp/teams/effective_access.py:93 | the last assignment of every chain ends a path within the bound if and only if that of every chain of exactly six does |
| `TeamDepth.AccessIsUnionOfChains` | src/mem_mcp/teams/effective_access.py:7-9 | then access, its class and its permissions are the union over the chains of any length |
| `TeamAccess.ChangeIsLocal` | src/mem_mcp/teams/effective_access.py:163-241 | a change of one assignment leaves role class, permissions and count of every pair outside the refreshed ones as they were, on any graph |
| `TeamAccess.AccessTable.Upsert` | src/mem_mcp/teams/effective_access.py:130-160 | one pair: its recomputed row is written, or deleted if no path is left; other pairs are untouched |
| `TeamAccess.AccessTable.SyncRefreshOnUserAssignment` | src/mem_mcp/teams/effective_access.py:163-183 | after any change of a user's role a table that was up to date is up to date again |
| `TeamAccess.AccessTable.CascadeOnTeamMemberChange` | src/mem_mcp/teams/effective_access.py:186-241 | the same after any change of a team's role in a team, with the number of refreshed pairs |
| `TeamAccess.AccessTable.UpsertAll` | src/mem_mcp/jobs/refresh_team_access.py:78-84 | the upsert loop recomputes every pair once; a dry run only counts |
| `TeamAccess.AccessTable.DeleteOrphans` | src/mem_mcp/jobs/refresh_team_access.py:86-95 | the orphan loop deletes exactly the orphans |
| `TeamAccess.AccessTable.Refresh` | src/mem_mcp/jobs/refresh_team_access.py:43-105 | after a run the table is up to date, whatever it held before: its keys are the implied pairs, every row is the recomputed one; a dry run changes nothing |
| `TeamAccess.AccessTable.RefreshTwice` | src/mem_mcp/jobs/refresh_team_access.py:75-95 | a second run finds no orphans |
| `MindMap.MapStore.InsertMembership` | src/mem_mcp/mindmap/service.py:88-125 | a node is inserted once and only into an existing map |
| `MindMap.MapStore.TouchOwnerWrite` | src/mem_mcp/mindmap/service.py:309-314 | the owner stamp of the map, if it exists |
| `MindMap.MapStore.TouchAgentRead` | src/mem_mcp/mindmap/service.py:317-322 | the read stamp of the map, if it exists |
| `MindMap.MapStore.WriteNode` | src/mem_mcp/mcp/tools/mindmap_write_node.py:130-146 | the insert and the owner stamp of one transaction |
| `MindMap.MapStore.UnacknowledgedOwnerInput` | src/mem_mcp/mindmap/service.py:325-362 | the guard with its two early exits |
| `MindMap.ShortcutIsExact` | src/mem_mcp/mindmap/service.py:343-347 | the early exits agree with the plain scan for every read time if and only if the owner stamp is current |
| `MindMapTheory.GuardIsExact` | src/mem_mcp/mindmap/service.py:325-362 | in every run of paired transactions the guard returns exactly the live owner nodes stamped after the last read |
| `MindMapTheory.GuardFollowsEvents` | src/mem_mcp/mindmap/service.py:328-331 | it returns what the owner wrote after the last read, and all of it if and only if no such node carries the read's own timestamp |
| `MindMapTheory.GuardInAnyRun` | src/mem_mcp/mindmap/service.py:328-347 | in every run, overlaps included, the guard covers what was committed after the last read if and only if there is nothing, or no early exit is taken and none of it is stamped at or before that read; and it returns nothing read if and only if it exits early or all that was read is stamped so |
| `MindMapTheory.GuardWithCurrentStamp` | src/mem_mcp/mindmap/service.py:328-331 | with a current owner stamp the early exits drop out of both conditions |
| `MindMapTheory.WriteIsReportedExactly` | src/mem_mcp/mindmap/service.py:309-314 | an owner write is reported when it commits if and only if its stamp is after the last read's |
| `MindMapTheory.LateCommitIsMissed` | src/mem_mcp/mindmap/service.py:330 | a reachable state with an empty guard, an empty scan, a current stamp and an unread owner node |
| `MindMapTheory.LateReadIsIgnored` | src/mem_mcp/mindmap/service.py:328-331 | a reachable state in which a node stays reported after a read that committed later |
| `MindMapTheory.OverlappingWritesHideNodes` | src/mem_mcp/mindmap/service.py:312 | overlapping owner transactions that make the shortcut hide a node |

## Left out

- Changes of the corpus while one clustering walk is under way: the neighbour relation is fixed for a walk.
- HTTP routes, middleware, Cognito, Bedrock, Ollama, SES and SSM clients: input and output around foreign services.
- JWT checking, encryption and the hashes themselves: the hashes appear as parameters only.
- PostgreSQL internals, row-level security, recall of the vector index: tables are maps with atomic steps.
- Hybrid search scoring, text ranking, mind-map queries other than the guard: their work is in SQL and would add only easy members.
- The memory-write tool that the drain calls, and the notice it queues: an abstract action that returns an id or raises.
- Quota accounting, audit logging, sign-out and client deletion in Cognito, deletion of a tenant's other rows.
- The localdev sign-in path that reactivates a tenant by email, hard deletes of memories, the audit-memory skill that hashes raw content.
- Ordering of the guard's result.
- Parsing of plugin schedule strings, the job catalogue and the bucket registry: easy members.
- The sole-owner check on removals, pending and revoked assignments beyond being inactive, and the time of the last refresh.
- A commit whose acknowledgement is lost, and a database error while recording a build failure.
- Floating-point rounding in the token bucket.
- ChunkIndex.ChunkStore.RunPass: contents do not change during the pass, and failures are recorded at the time of the fetch; updates between fetch and commit are the subject of the protocol in ChunkIndexTheory.
- ChunkQueue.ServedExactly: edits, writes and deletions of memories in front of the one that waits are not part of its runs, because each of them can take the memory's place in the queue again.
- Closure.ClosureStore.RunRetention: nothing interleaves with the job there; interleavings are the subject of the protocol in the same module.
