# GAF core algorithms: a Dafny model

This project models the algorithmic cores of GAF's backend and tooling and proves properties of the
models: the static gate for generated pipelines, the service daemon's start order and restart
budget, the cross-process file lock, the incremental RAG index with its splitters, rank fusion and
singleton, the front matter parser, the synonym expander, the skill mirror, the scheduler reconcile,
the latency percentiles, the per-execution debug directories, the log broadcast back-off, the LLM
fallback chain and the per-hour log path.

One module stands for one component; code that updates fields or loops in place is a class or a
method proved against a specification, and pure code is functions. The RAG index is `RagIndex` with its two
splitters; `RagChunks` says what the chunks of a file hold, `RagScan` and `RagRuns` are about whole scans
and runs of scans. `Graphs`, `Sorting`, `PyStrings`
and `Prelude` hold what several components share: walks and cycles, the stable sort behind Python's
`sorted`, Python's string operations with the laws the proofs need, and small definitions.
`dafny verify dfyconfig.toml` checks everything.

How the environment appears: files, processes, sockets, Redis, ChromaDB and LLM calls are maps, a
kernel lock table or nondeterministic outcomes; clocks, hashes, rounding functions, keyword scores
and client replies are parameters. Concurrency (`LockProtocol`, `RagSingleton`) is a step system
whose runs are all interleavings of single statements.

## Where the code does not do what is said of it

- `SyncLock`: two instances can have `_acquired` true at once, because `release` unlocks
  (scripts/sync_lock.py:253) before it lowers the flag (254). `FlagWindow` gives the exact window,
  `TwoFlagsReachable` a run into it, and `MutualExclusion` is what does hold.
- `SyncLock`: after a timeout or release the process can still have a lock-file descriptor open, if an
  earlier `acquire` was left by an unexpected flock error and `acquire` was called again.
  `LeakReachable` is such a run, `NothingLeftExactly` and `OnlyErrorsLeak` say exactly when.
- "Each section is a chunk" of a Markdown file (backend/gaf_ai/rag.py:383-385): sections whose titles
  have one slug share a document id and only the last is stored, among them all titles without ASCII
  letters and digits. Two paths that differ in a slash only collide too. `ScanKeepsIff` is the exact
  condition over a whole scan, `ChineseTitlesCollide` and `SlashPathsCollide` are inputs,
  `LastSectionStored` says what stays.
- The restart budget "3 in 30 minutes" binds the crash path only; `ManualExceedsBudget` is a run of
  the other path, `RecordKeepsBudgetIff` and `BudgetExactly` the exact condition.
- `stream_chat` documents a commitment to the first client that yields; a client that fails after its
  first chunk is followed by the next one (backend/gaf_ai/llm_router.py:310-326). `CommittedIff`,
  `AlwaysCommittedIff`, `MixedStream`.
- The log path is cached per hour of day although it contains the date; `RunFreshIff`, with `GapsKeepFresh`
  and `OneSecondMoreIsStale`.
- `find_exec_dir_by_id` cannot find what `build_execution_debug_dir` built for an empty root, or for an
  id whose suffix is empty or has a slash or a NUL, and only then (a root with a NUL names no directory):
  `CanBeFoundIff`, with `EmptyRootDiffers` and `SlashIdIsLost` as inputs.
- The incremental index and the mirror compare hashes, so they are exact up to collisions and no
  further; `FlushRefinesFullIff`, `ContentsExactIff`.

## Model

| member | source | states |
|---|---|---|
| CycleSearch.CycleFinder.Dfs | backend/gaf_ai/pipeline_guard.py:34-42 | the recursive three-colour search: grey nodes are the current path, black nodes were finished after all their successors, a hit means a real cycle; terminates because the untouched set shrinks, and calls never nest deeper than there are nodes |
| CycleSearch.CycleFinder.Search | backend/gaf_ai/pipeline_guard.py:44 | the loop over all start nodes decides exactly whether a cycle exists |
| CycleSearch.HasCycleDfs | backend/gaf_ai/pipeline_guard.py:29-44 | true exactly when some node has a non-empty path back to itself, for every adjacency map |
| CycleSearch.Reachable | backend/gaf_ai/pipeline_guard.py:47-57 | the explicit-stack search returns exactly the reflexive-transitive closure of the start node |
| Graphs.SuccessorsFirstIsAcyclic | backend/gaf_ai/pipeline_guard.py:41-44 | a duplicate-free order with successors first that covers all edge sources rules out every cycle |
| Graphs.AcyclicWalkNoDup | backend/gaf_ai/pipeline_guard.py:127-129 | a walk in an acyclic graph repeats no node |
| PipelineGuard.ScanNodes | backend/gaf_ai/pipeline_guard.py:79-109 | the node loop computes ids, errors, warnings, high-risk list and score as specified |
| PipelineGuard.BuildAdjacency | backend/gaf_ai/pipeline_guard.py:112-125 | the edge loop builds the graph of the kept edges and reports the dropped ones |
| PipelineGuard.KeptGraphEdges | backend/gaf_ai/pipeline_guard.py:118-121 | that graph has an edge exactly where some kept edge leads, between two known, different nodes |
| PipelineGuard.FindUnreachable | backend/gaf_ai/pipeline_guard.py:131-136 | the unreachable list is the id list without what the first id reaches, in order |
| PipelineGuard.CheckGraph | backend/gaf_ai/pipeline_guard.py:79-146 | the whole report for a non-empty node list |
| PipelineGuard.ValidateAndScore | backend/gaf_ai/pipeline_guard.py:60-146 | the gate, with its two early exits |
| PipelineGuard.NodeErrorsMeaning | backend/gaf_ai/pipeline_guard.py:81-92 | no node error exactly when every entry is an object with an id and the ids are distinct |
| PipelineGuard.ValidMeaning | backend/gaf_ai/pipeline_guard.py:127-138 | a report is valid exactly when the nodes are sound and the kept edges acyclic |
| PipelineGuard.ValidBoundsWalks | backend/gaf_ai/pipeline_guard.py:111-138 | every walk of a valid pipeline along kept edges visits distinct nodes, at most as many as the pipeline has |
| PipelineGuard.RiskLevelMeaning | backend/gaf_ai/pipeline_guard.py:98-104 | high exactly for a cycle or a high-risk type, low exactly for neither of those nor a medium type |
| PipelineGuard.DroppedEdgesReported | backend/gaf_ai/pipeline_guard.py:120-123 | a dropped-edge warning appears exactly for the edge objects that are not kept |
| PipelineGuard.CoordsReported | backend/gaf_ai/pipeline_guard.py:106-109 | a coordinate is reported exactly when it lies outside [0, 4096] |
| PipelineGuard.CoordinateWarnedIff | backend/gaf_ai/pipeline_guard.py:93-109 | a report names a coordinate exactly when some typed node with that id has it, outside [0, 4096] |
| PipelineGuard.TypeWarnedIff | backend/gaf_ai/pipeline_guard.py:93-104 | a report warns of a missing type exactly for a node with an id and no type, of an unknown type exactly when a node has one that no risk class lists |
| PipelineGuard.EdgeWarnedIff | backend/gaf_ai/pipeline_guard.py:111-125 | a report names a dropped edge exactly when there is such an edge object and it is no edge between two known, different nodes; a malformed edge list exactly when there is one |
| PipelineGuard.GraphEdgeIff | backend/gaf_ai/pipeline_guard.py:113-121 | the graph has an edge exactly where an edge object leads between two different ids of nodes |
| PipelineGuard.UnreachableWarnedIff | backend/gaf_ai/pipeline_guard.py:131-136 | a report warns of unreachable nodes exactly when there are any, and of all of them at once |
| PipelineGuard.ErrorIff | backend/gaf_ai/pipeline_guard.py:79-129 | each error of a report, exactly when it is one: no object at this place, no id at this place, an id that two entries have, a cycle |
| PipelineGuard.ScoreMeaning | backend/gaf_ai/pipeline_guard.py:98-102 | the score is three for each entry of a high type and one for each of a medium type; the high-risk list names exactly the nodes of a high type |
| PipelineGuard.IdsInOrder | backend/gaf_ai/pipeline_guard.py:92 | ids come in list order |
| PipelineGuard.HighRiskInOrder | backend/gaf_ai/pipeline_guard.py:98-99 | high-risk nodes come in list order |
| PipelineGuard.WarningsInOrder | backend/gaf_ai/pipeline_guard.py:94-109 | node warnings come in list order |
| PipelineGuard.SelfLoopsIgnored | backend/gaf_ai/pipeline_guard.py:120 | a self-loop anywhere in the edge list leaves the graph, and so the verdict, as it is |
| StartupOrder.OrderBuilder.Visit | scripts/gaf_daemon.py:379-387 | the visit keeps the order duplicate-free and, in an acyclic map, dependencies first; terminates on cyclic maps too |
| StartupOrder.ComputeOrder | scripts/gaf_daemon.py:374-391 | lists every service and named dependency once; dependencies come first exactly when the map is acyclic |
| StartupOrder.StartsAfterStopsBefore | scripts/gaf_daemon.py:491-492 | a service starts after all it transitively depends on and the reversed order stops it before them |
| RestartBudget.ServiceInfo.CanRestart | scripts/gaf_daemon.py:474-477 | cleans the history and answers whether fewer than 3 entries are left |
| RestartBudget.ServiceInfo.RecordRestart | scripts/gaf_daemon.py:479-483 | cleans, appends the timestamp, updates the count |
| RestartBudget.RecentMeaning | scripts/gaf_daemon.py:468-472 | cleaning judges every entry on its own, by an age below 1800 s, and keeps the order |
| RestartBudget.ServiceInfo.Watch | scripts/gaf_daemon.py:833-871 | one watchdog look: alive, reconcile, restart within budget, or refusal, with the process and the history each leaves; a restart launches the service |
| RestartBudget.LookTwice | scripts/gaf_daemon.py:833-871 | after a restart the next look finds the service alive exactly when the launch is running, and then changes nothing |
| RestartBudget.ServiceInfo.Restart | scripts/gaf_daemon.py:648-661 | the health and manual path records a restart without asking |
| RestartBudget.RunIsFaithful | scripts/gaf_daemon.py:468-483 | in every run the stored list is exactly the part of the log since the last reconcile that had not expired at the last cleaning, and the count is its length |
| RestartBudget.GuardMeansRoom | scripts/gaf_daemon.py:856 | the guard passes exactly when fewer than 3 restarts since the last reconcile lie in the last 1800 s |
| RestartBudget.BudgetIsSpacing | scripts/gaf_daemon.py:83-84 | at most 3 restarts in every half-open window exactly when each is 1800 s after the third before it |
| RestartBudget.RecordKeepsBudgetIff | scripts/gaf_daemon.py:479-483 | a recorded restart of any kind keeps the budget exactly when there was room |
| RestartBudget.CrashRunWithinBudget | scripts/gaf_daemon.py:833-871 | in any run without manual restarts, reconciles included, no window of 1800 s holds more than 3 of the restarts since the last reconcile |
| RestartBudget.EveryRun | scripts/gaf_daemon.py:797-871 | the run theorem from the daemon's start: sorted history, exact count; without manual restarts the budget since the last reconcile, and over everything if there was none |
| RestartBudget.BudgetExactly | scripts/gaf_daemon.py:736-744 | over any log the budget holds exactly when each restart found room |
| RestartBudget.ManualExceedsBudget | scripts/gaf_daemon.py:648-661 | four manual restarts in four seconds exceed the budget |
| LockProtocol.StepKeepsInv | scripts/sync_lock.py:212-266 | every statement of every instance keeps the lock invariant |
| LockProtocol.MutualExclusion | scripts/sync_lock.py:212-257 | a holder owns an open, kernel-held description and there is at most one holder, in every interleaving |
| LockProtocol.TwoFlagsExactly | scripts/sync_lock.py:252-254 | whenever two flags are up, one of the two instances is between its unlock and its clear |
| LockProtocol.FlagWindow | scripts/sync_lock.py:212-254 | while one flag is up, another instance at any line of acquire or release can raise its own beside it exactly when the kernel lock is free or already its own, and then the first is between unlock and clear |
| LockProtocol.RaiseAlone | scripts/sync_lock.py:212-266 | an instance for which the lock is free raises its flag from every line it can stand at, if it runs alone |
| LockProtocol.TwoFlagsReachable | scripts/sync_lock.py:252-254 | a concrete run with two flags up |
| LockProtocol.TimeoutOnlyWhenDue | scripts/sync_lock.py:230-245 | LockTimeout only after the timeout, after at most ceil(timeout/poll)+1 tries, leaving no descriptor |
| LockProtocol.GivesUpAlone | scripts/sync_lock.py:230-245 | while another process holds the lock, an acquire at any line that runs alone ends in a timeout: deadline passed, flag down, descriptor closed, the holder untouched |
| LockProtocol.ReleaseFrees | scripts/sync_lock.py:247-266 | release ends with flag down, descriptor closed and lock free even if LOCK_UN failed |
| LockProtocol.NothingLeftExactly | scripts/sync_lock.py:218-266 | a run that ends in a timeout or a release leaves no descriptor open exactly when every acquire on the way that opened one found `_fd` empty |
| LockProtocol.OnlyErrorsLeak | scripts/sync_lock.py:218-245 | without an unexpected flock error no acquire finds `_fd` set |
| LockProtocol.LeakReachable | scripts/sync_lock.py:218-266 | a run with one flock error after whose complete release a descriptor is still open |
| LockProtocol.LeakExactly | scripts/sync_lock.py:218-227 | a descriptor drops out of sight exactly at an acquire that finds one still set |
| SyncLock.SyncLock.constructor | scripts/sync_lock.py:188-199 | timeout and poll interval are clamped; nothing is held |
| SyncLock.SyncLock.Acquire | scripts/sync_lock.py:212-245 | the polling loop under interference: idempotent when held; it succeeds exactly when a flock is granted and raises exactly when one fails with another error; acquired means kernel lock held; timeout bounds and clean-up |
| SyncLock.SyncLock.Release | scripts/sync_lock.py:247-266 | flag down, descriptor closed, lock not held |
| SyncLock.WithRepoLock | scripts/sync_lock.py:285-302 | the context manager's body runs exactly when a flock is granted, and under the lock from start to end; every path ends without lock or descriptor, with the description it opened closed |
| RagIndex.RAGRetriever.IndexDocument | backend/gaf_ai/rag.py:145-165 | with an open batch the chunk is appended with its hash; otherwise added at once; an explicit hash wins |
| RagIndex.RAGRetriever.IndexTsFile | backend/gaf_ai/rag.py:340-378 | the loop hands over exactly the chunks of the windows, with or without an open batch, and counts those taken |
| RagIndex.RAGRetriever.IndexMarkdownFile | backend/gaf_ai/rag.py:380-435 | one chunk per section in order, or one for a file without headers, with or without an open batch |
| RagIndex.RAGRetriever.IndexPythonFile | backend/gaf_ai/rag.py:267-337 | the module chunk and one per symbol with text; nothing for a blank file; the fallback counts as one |
| RagIndex.HandedBatch | backend/gaf_ai/rag.py:151-155 | with an open batch every chunk is appended and counted, nothing is written |
| RagIndex.HandedDirect | backend/gaf_ai/rag.py:156-165 | without one, stored chunks overwrite the collection in order and the result counts the adds that did not fail |
| RagIndex.HandedNotReady | backend/gaf_ai/rag.py:147-148 | without a database nothing is stored, collected or counted |
| RagIndex.WithHashMeaning | backend/gaf_ai/rag.py:149-150 | text and metadata are kept; the hash of the text is added unless there is one |
| RagIndex.RAGRetriever.Dedupe | backend/gaf_ai/rag.py:213-216 | first-occurrence order, last write wins |
| RagIndex.OrderMeaning | backend/gaf_ai/rag.py:208-216 | the deduplicated ids are those of the batch, in the order of their first mention |
| RagIndex.RAGRetriever.FilterChanged | backend/gaf_ai/rag.py:228-232 | keeps exactly the ids whose stored hash is missing or different |
| RagIndex.ChangedMeaning | backend/gaf_ai/rag.py:228-232 | every id is judged on its own and keeps its place |
| RagIndex.RAGRetriever.UpsertGroups | backend/gaf_ai/rag.py:243-257 | groups of 64, any of which may fail: the written ids and their number |
| RagIndex.WrittenMeaning | backend/gaf_ai/rag.py:243-255 | an id is written exactly when its group of 64 gets through |
| RagIndex.RAGRetriever.FlushBatch | backend/gaf_ai/rag.py:203-257 | the collection after a flush, for every outcome of lookup and groups; the result is the number of ids written |
| RagIndex.RAGRetriever.IndexCodeFiles | backend/gaf_ai/rag.py:167-201 | one scan over TypeScript, Markdown, Python and failing files: batch opened, filled, flushed and closed; the collection and the count afterwards |
| RagIndex.AllChunksHonest | backend/gaf_ai/rag.py:149-154 | scanned chunks of every file kind carry the hash of their content |
| RagIndex.FlushIsFlushed | backend/gaf_ai/rag.py:243-257 | without failing groups exactly the changed ids are written |
| RagIndex.FlushRefinesFullIff | backend/gaf_ai/rag.py:203-257 | contents equal those of a full re-index exactly when no scanned id has a hash collision |
| RagIndex.FlushRefinesFull | backend/gaf_ai/rag.py:203-257 | with an injective hash: same contents as a full re-index, last write wins, other ids untouched |
| RagIndex.SecondFlushIsIdle | backend/gaf_ai/rag.py:228-242 | flushing the same batch again finds nothing changed |
| RagIndex.RetryCompletes | backend/gaf_ai/rag.py:247-255 | after any failed groups a later flush reaches the full re-index |
| RagChunks.TsChunksMeaning | backend/gaf_ai/rag.py:357-372 | one chunk per window, its text the lines of the window, its id their numbers counted from 1 |
| RagChunks.EmptyTsFile | backend/gaf_ai/rag.py:351-353 | only an empty file has no chunks |
| RagChunks.TsFileBack | backend/gaf_ai/rag.py:357-378 | a TypeScript file can be read back off its chunks |
| RagChunks.SectionChunksMeaning | backend/gaf_ai/rag.py:424-433 | one chunk per section, its text the lines of the section, its id the slug of the title |
| RagChunks.MarkdownFileBack | backend/gaf_ai/rag.py:393-435 | the chunks of a Markdown file hold it from its first header on, and all of it in one chunk without a header |
| RagChunks.OneSymbolChunk | backend/gaf_ai/rag.py:310-336 | a symbol with text gives a chunk with that text under its name and line, one without gives none |
| RagChunks.PythonChunksMeaning | backend/gaf_ai/rag.py:283-308 | nothing for a file of white space; otherwise the whole source first, then the symbols, if it parses |
| RagScan.ScanKeepsIff | backend/gaf_ai/rag.py:167-216 | a scan stores as many documents as it has chunks exactly when slugs are distinct in every Markdown file, (name, line) in every Python file, and no two files collide; files whose paths differ in more than slashes never do |
| RagScan.DocIdIff | backend/gaf_ai/rag.py:262-264 | two document ids are equal exactly when the paths agree up to slashes and the suffixes agree |
| RagScan.ScanIdsIff | backend/gaf_ai/rag.py:262-435 | the chunks of a scan have pairwise distinct ids exactly under that condition |
| RagScan.LastSectionWins | backend/gaf_ai/rag.py:208-216 | in the batch of a scan the last section of each slug counts, unless a later file collides |
| RagRuns.LastSectionStored | backend/gaf_ai/rag.py:167-257 | after a scan without failing groups the collection holds the text of that section |
| RagScan.UntitledSectionsCollide | backend/gaf_ai/rag.py:425-426 | in any scan a file with two titles without ASCII letter or digit loses a section |
| RagScan.ChineseTitlesCollide | backend/gaf_ai/rag.py:425-426 | a file with two Chinese titles, stored as one document |
| RagScan.SlashPathsCollide | backend/gaf_ai/rag.py:262-264 | two files whose names differ in a slash only, stored as one document |
| RagRuns.ScanRefinesFull | backend/gaf_ai/rag.py:167-257 | a scan without failing groups has the contents of a full re-index of its files |
| RagRuns.ScanKeepsHonest | backend/gaf_ai/rag.py:149-257 | stored hashes stay hashes of the stored contents, whatever fails |
| RagRuns.CleanScanRecovers | backend/gaf_ai/rag.py:167-257 | the same after any run of scans with any failures |
| RagRuns.FailuresLeaveNoTrace | backend/gaf_ai/rag.py:167-257 | any number of failing scans of the same files, then one that loses no group, equals a single full re-index |
| RagRuns.RunRefinesFull | backend/gaf_ai/rag.py:167-257 | a run of scans over changing files equals one full re-index of all their chunks in order |
| RagRuns.UnscannedStays | backend/gaf_ai/rag.py:228-257 | over any run an id without a scanned chunk keeps its entry: nothing is removed |
| MarkdownSplitter.SplitSections | backend/gaf_ai/rag.py:393-411 | the loop over the lines computes the sections |
| MarkdownSplitter.SectionsRebuild | backend/gaf_ai/rag.py:393-411 | the sections joined are the file from its first header on |
| MarkdownSplitter.SectionsShape | backend/gaf_ai/rag.py:393-411 | each section is one header line, which gives its title, and body lines |
| MarkdownSplitter.TitleMeaning | backend/gaf_ai/rag.py:402-405 | the title is what stands after "## " without the white space around it |
| MarkdownSplitter.SlugIsWords | backend/gaf_ai/rag.py:425 | a slug is the runs of letters and digits of the lower-cased title, in order, joined by single dashes; "untitled" without any |
| MarkdownSplitter.SameSlugIff | backend/gaf_ai/rag.py:425 | two titles share a slug exactly when they have the same words, or one has none and the other is "untitled" |
| PyStrings.LowerMeaning | backend/gaf_ai/rag.py:425 | lower-casing maps A to Z onto a to z, place by place, and keeps everything else |
| PyStrings.DecMeaning | backend/gaf_ai/rag.py:364 | the numeral in an id stands for the number and has no leading zero |
| WindowSplitter.WindowsShape | backend/gaf_ai/rag.py:357-378 | chunk sizes, exact overlap of neighbours, first and last line covered |
| WindowSplitter.ChunksRebuild | backend/gaf_ai/rag.py:357-378 | joining chunks without their repeated lines gives the file back |
| WindowSplitter.ChunkIdsDistinct | backend/gaf_ai/rag.py:364-366 | the ids of one file's chunks are pairwise distinct |
| RankFusion.RankingCorrect | backend/gaf_ai/rag.py:596-597 | the keyword order is a stable descending permutation |
| RankFusion.KeywordRanks | backend/gaf_ai/rag.py:597 | the rank dictionary gives every document its place in the keyword order |
| RankFusion.KeywordRankMeaning | backend/gaf_ai/rag.py:595-597 | the keyword rank is the number of documents with a higher similarity, or the same and an earlier place |
| RankFusion.FusedMeaning | backend/gaf_ai/rag.py:599-606 | the fused score is the rounded sum of 1/(61 + vector rank), 1/(61 + keyword rank) and a hundredth of the similarity |
| RankFusion.RerankDocs | backend/gaf_ai/rag.py:592-613 | the returned documents and scores, position by position |
| RankFusion.ResultShape | backend/gaf_ai/rag.py:607-608 | min(top_k, n) distinct input documents in descending score order |
| RankFusion.ResultBest | backend/gaf_ai/rag.py:607-608 | what is left out scores lower than everything returned, or the same and stands later |
| RankFusion.FusedMonotone | backend/gaf_ai/rag.py:538-540 | better vector rank and no worse keyword score give no lower fused score, under any monotone rounding |
| RankFusion.Dominance | backend/gaf_ai/rag.py:584-613 | a dominating document is in the result whenever the dominated one is, and earlier |
| RagSingleton.AtMostOneRetriever | backend/gaf_ai/rag.py:616-673 | at most one retriever is ever constructed, all results are it, the getter never returns None |
| RagSingleton.OneInsideLock | backend/gaf_ai/rag.py:634 | no two threads are inside the with block |
| RagSingleton.NeverStuck | backend/gaf_ai/rag.py:632-673 | some thread can always go on, also after raising constructors |
| FrontMatter.ParseFrontMatter | scripts/frontmatter.py:29-119 | the scanning loops compute `Parse` and terminate |
| FrontMatter.ParseMeaning | scripts/frontmatter.py:41-55 | a block is found exactly when the text begins with "---", its first line reads "---" and so does a later one; otherwise the result is empty and the body is the text |
| FrontMatter.BlockMeaning | scripts/frontmatter.py:48-57 | with a block the fields are those between the first two fences, the body is the lines after the second |
| FrontMatter.FieldLineIff | scripts/frontmatter.py:61-72 | a field line is exactly a key at the start, white space, a colon and the value with white space around it |
| FrontMatter.ItemLineIff | scripts/frontmatter.py:97-104 | a list line is exactly white space, a dash and the item, with white space and then quotes taken off |
| FrontMatter.SingleValueMeaning | scripts/frontmatter.py:74-115 | a value in brackets is an inline list, one in quotes the text between them, anything else itself |
| FrontMatter.ListStep | scripts/frontmatter.py:93-109 | a field without a value takes the items of all list lines right below it, in order |
| FrontMatter.InlineItemMeaning | scripts/frontmatter.py:75-81 | a part of an inline list gives nothing when blank and otherwise itself, white space and then quotes taken off |
| FrontMatter.PutMeaning | scripts/frontmatter.py:77-115 | the last assignment to a key wins, a known key keeps its place, a new one goes to the end |
| FrontMatter.ScanItems | scripts/frontmatter.py:93-105 | the inner list loop reads exactly the leading list lines |
| FrontMatter.ParsePrint | scripts/frontmatter.py:8-15 | parsing a printed mapping returns the mapping, in any mix of the documented styles, and the normalised body |
| FrontMatter.RoundTrip | scripts/frontmatter.py:41-119 | the body comes back exactly when it has only newline breaks and none at the end |
| FrontMatter.NoiseBetweenFields | scripts/frontmatter.py:60-70 | comments, blank and unrecognised lines between fields change nothing |
| FrontMatter.ImageIsRepresentable | scripts/frontmatter.py:57-119 | the mappings the parser can produce are exactly the representable ones |
| FrontMatter.ReparseStable | scripts/frontmatter.py:29-119 | printing what was read from any text and reading it again changes nothing |
| PyStrings.JoinSplitLinesIff | scripts/frontmatter.py:118 | joining split lines gives a text back exactly when it is clean |
| PyStrings.SplitLinesAt | scripts/frontmatter.py:44 | a line ends at its first break, whichever break it is |
| PyStrings.TrimParts | scripts/frontmatter.py:62-72 | stripping takes off padding only, at both ends, and all of it |
| Synonyms.Tokenize | scripts/symptom_synonyms.py:138-161 | the token loop computes the specified tokens |
| Synonyms.TokenIsSubstring | scripts/symptom_synonyms.py:138-161 | every token is a non-empty contiguous part of the query |
| Synonyms.TokensJoined | scripts/symptom_synonyms.py:138-161 | joined, the tokens are the CJK and ASCII alphanumeric characters of the query in order |
| Synonyms.TokenShape | scripts/symptom_synonyms.py:147-161 | a token is one CJK character or a run of ASCII letters and digits |
| Synonyms.TokensWhole | scripts/symptom_synonyms.py:153-160 | a run of ASCII letters and digits is one token |
| Synonyms.TokensCut | scripts/symptom_synonyms.py:147-158 | any other character ends the run, and a CJK character is a token of its own |
| Synonyms.HasTokensIff | scripts/symptom_synonyms.py:147-161 | there are tokens exactly when there is a CJK or ASCII alphanumeric character |
| Synonyms.SynonymTable.RegisterCategory | scripts/symptom_synonyms.py:97-130 | the chain of early returns accepts exactly the bilingual rule; an accepted call leaves one entry for the category, with the cleaned list, and all others in their order; a rejected one changes nothing |
| Synonyms.RegistrationMeaning | scripts/symptom_synonyms.py:110-111 | registering again replaces the list and leaves no trace of the older one; keys stay distinct |
| Synonyms.AcceptedIff | scripts/symptom_synonyms.py:113-127 | in terms of what is given: a lower-case name of letters, digits and separators, not of separators alone; two synonyms that are not blank; a CJK character and an ASCII letter among them |
| Synonyms.PutEntryPlace | scripts/symptom_synonyms.py:128-129 | a new category goes to the end of the table, a known one keeps its place |
| Synonyms.CleanedMembers | scripts/symptom_synonyms.py:121 | the stored list holds exactly the non-blank synonyms, stripped |
| Synonyms.CleanedMeaning | scripts/symptom_synonyms.py:121 | every synonym is cleaned on its own and keeps its place |
| Synonyms.SynonymTable.ExpandQuery | scripts/symptom_synonyms.py:164-216 | the loops compute the expansion in first-seen order |
| Synonyms.ExpansionMembers | scripts/symptom_synonyms.py:164-216 | a keyword is in the expansion exactly when it is non-empty and some token brings it in, through an entry it hits or as a token that hits none; no duplicates; in the order of first mention |
| Synonyms.HitsIff | scripts/symptom_synonyms.py:192-208 | a token hits an entry exactly when, read without case, it is a part of the category, or it and a synonym are one a part of the other |
| Synonyms.HitKeywordsMeaning | scripts/symptom_synonyms.py:192-213 | a hit entry gives its category and its synonyms, in the place of the entry |
| Synonyms.OneTokenKeywords | scripts/symptom_synonyms.py:190-215 | a token that hits something brings all that it hits, any other itself |
| Synonyms.SynonymFindsEntry | scripts/symptom_synonyms.py:189-216 | an entry is found through a synonym exactly when the synonym has a token character |
| Synonyms.RegisteredIsFound | scripts/symptom_synonyms.py:121-216 | the same for a freshly registered category; other categories are kept |
| SkillMirror.Destination.ApplyMirror | scripts/sync_workbuddy_skills.py:72-84 | succeeds exactly when no copy clashes; then every listed file has the source's content; a run stopped by a clash leaves the copies before it and nothing else |
| SkillMirror.ClashesIff | scripts/sync_workbuddy_skills.py:80-82 | a copy clashes exactly when the tree with the copy in it would be no tree |
| SkillMirror.Destination.RemoveEmptyDirs | scripts/sync_workbuddy_skills.py:101-110 | one deepest-first pass removes exactly the unprotected directories without a file below |
| SkillMirror.Destination.PruneStale | scripts/sync_workbuddy_skills.py:87-111 | stale files gone; the directories left are exactly the protected ones and those with a file below |
| SkillMirror.Destination.Sync | scripts/sync_workbuddy_skills.py:135-185 | the run: resulting files, counts, the exact directories with and without pruning, and when it fails |
| SkillMirror.Destination.Check | scripts/sync_workbuddy_skills.py:135-169 | exit code 0 exactly when a run with --prune would leave every file as it is, and exactly when all source files are there with their hash and the rest is protected |
| SkillMirror.NoDriftIsFixed | scripts/sync_workbuddy_skills.py:58-111 | no drift is the same as being a fixed point of the run |
| SkillMirror.SyncConverges | scripts/sync_workbuddy_skills.py:58-111 | source files plus old protected files; no drift afterwards; a second run is a fixed point |
| SkillMirror.ContentsExactIff | scripts/sync_workbuddy_skills.py:63-67 | contents are exact precisely when no path has a hash collision |
| SkillMirror.MirrorOnlyAdds | scripts/sync_workbuddy_skills.py:9-12 | without pruning nothing is deleted and drift remains exactly when something is stale |
| JobReconcile.Scheduler.RegisterDbScheduledTasks | backend/config/scheduler.py:151-193 | registers exactly the enabled tasks with a usable trigger and counts them |
| JobReconcile.CronMeaning | backend/config/scheduler.py:166-177 | five fields, whatever white space is around them, are minute, hour, day, month and day of the week |
| JobReconcile.OtherTriggers | backend/config/scheduler.py:162-179 | a one-time task has a trigger exactly when it has a time, which it is; a cron text of any other number of fields has none |
| JobReconcile.DayOfWeekMeaning | backend/config/scheduler.py:171-176 | "*" stays; a comma list keeps order and length, 0 to 6 become sun to sat and anything else stays |
| JobReconcile.UsableCountMeaning | backend/config/scheduler.py:159-193 | the result is the number of enabled tasks with a usable trigger |
| JobReconcile.Scheduler.SyncDbScheduledTasks | backend/config/scheduler.py:196-245 | the reconciled job table |
| JobReconcile.ReconciledUnique | backend/config/scheduler.py:196-245 | the requirement determines the table |
| JobReconcile.DbJobsExactly | backend/config/scheduler.py:159-193 | the prefixed jobs are exactly those of enabled tasks that are usable or were registered before |
| JobReconcile.SyncIdempotent | backend/config/scheduler.py:204-206 | a second reconcile changes nothing |
| Percentile.BetweenNeighbours | backend/gaf_core/perf_monitor.py:192-201 | a percentile lies between its two neighbouring sorted values |
| Percentile.InterpolationMeaning | backend/gaf_core/perf_monitor.py:192-201 | a percentile is the entry before its position p/100 * (n - 1) plus the share of the step to the next that lies before it |
| Percentile.PercentileEnds | backend/gaf_core/perf_monitor.py:192-201 | the 0th and 100th percentile are the smallest and the largest value |
| Percentile.PercentileMonotone | backend/gaf_core/perf_monitor.py:192-201 | percentiles are monotone in p |
| Percentile.StatsOrderFree | backend/gaf_core/perf_monitor.py:188-210 | statistics do not depend on the order of the measurements |
| Percentile.StatsOrdered | backend/gaf_core/perf_monitor.py:203-210 | rounded min <= p50 <= p95 <= p99 <= max, and max is the rounded maximum |
| Percentile.StatsMeaning | backend/gaf_core/perf_monitor.py:188-210 | the numbers, over the measurements in ascending order: how many, the places 50, 95 and 99 hundredths up, and the last |
| Percentile.AverageMeaning | backend/gaf_core/perf_monitor.py:190-205 | the average is the rounded mean of the measurements and lies between the rounded bounds of any range that holds them |
| Percentile.PerfMonitor.Record | backend/gaf_core/perf_monitor.py:96-109 | appends one measurement under its name and keeps the dictionary equal to what the log says |
| Percentile.PerfMonitor.GetAggregates | backend/gaf_core/perf_monitor.py:115-126 | one statistic for each name recorded since the last reset, over exactly the measurements the log has for it |
| Percentile.AggregatesOrderFree | backend/gaf_core/perf_monitor.py:96-126 | the aggregates depend on the multiset of records only, so not on how recording threads interleave |
| DebugPath.SanitizeIsComponent | backend/gaf_core/debug_path.py:36-48 | the sanitised name is one usable path component of at most 40 characters |
| DebugPath.SanitizeMeaning | backend/gaf_core/debug_path.py:36-48 | unsafe characters and spaces become "_", dots and underscores at the ends go, the rest is cut at 40 characters; "unnamed" exactly when nothing else is in the name |
| DebugPath.SafeNameStays | backend/gaf_core/debug_path.py:43-48 | a safe name of at most 40 characters stays as it is |
| DebugPath.SuffixMeaning | backend/gaf_core/debug_path.py:51-61 | the suffix is the end of the id after "exec-": its last eight characters or all of them |
| DebugPath.BuildShape | backend/gaf_core/debug_path.py:94-103 | the built path, spelled out |
| DebugPath.ScanRoot | backend/gaf_core/debug_path.py:186-237 | the nested loops collect exactly the nested and legacy matches, in scan order |
| DebugPath.DatePattern | backend/gaf_core/debug_path.py:189 | a date directory is eight digits, and one final newline at most |
| DebugPath.ExecPattern | backend/gaf_core/debug_path.py:190 | an execution directory is six digits and "_" |
| DebugPath.LegacyPattern | backend/gaf_core/debug_path.py:224 | one of the older layout is eight digits, "_", six digits and "_" |
| DebugPath.MatchesExactly | backend/gaf_core/debug_path.py:186-237 | the candidates are exactly the directories of either layout whose name ends with the suffix |
| DebugPath.FindExecDirById | backend/gaf_core/debug_path.py:165-242 | None exactly without root, suffix, listing or match; otherwise a newest match, the first among equals |
| DebugPath.BuiltIsMatched | backend/gaf_core/debug_path.py:94-103 | the built directory, once there, is among the matches |
| DebugPath.FindUndoesBuild | backend/gaf_core/debug_path.py:175-242 | lookup succeeds, and returns the built path exactly when it is the newest match |
| DebugPath.CanBeFoundIff | backend/gaf_core/debug_path.py:79-242 | some listing lets the lookup return the built path exactly when the root is non-empty without NUL and the suffix non-empty without slash and NUL |
| DebugPath.UnsafeMatchesNothing | backend/gaf_core/debug_path.py:186-237 | a suffix with a slash or NUL has no candidate in any tree of path components |
| DebugPath.EmptyRootDiffers | backend/gaf_core/debug_path.py:94 | with an empty root the lookup returns None for every listing, although build uses ./debug, where it can be found |
| DebugPath.SlashIdIsLost | backend/gaf_core/debug_path.py:51-61 | the id "a/b" is built one level deeper and found in no listing |
| LogBackoff.FileLogHandler.Broadcast | backend/gaf_core/handlers.py:325-384 | one call: skipped while disabled, reset on success, longer wait on failure, untouched without a layer |
| LogBackoff.IntervalIsWait | backend/gaf_core/handlers.py:298-301 | the interval is min(60*2^k, 300) after k consecutive failures, over every run |
| LogBackoff.DisabledExactly | backend/gaf_core/handlers.py:325-383 | over every run calls are skipped for exactly min(60*2^k, 300) seconds after the last failing attempt, the (k+1)-st in a row, and never after a success |
| LogBackoff.OutageIsQuiet | backend/gaf_core/handlers.py:325-384 | n >= 4 failing attempts span at least 420 + 300*(n-4) seconds |
| LlmRouter.LLMRouter.Chat | backend/gaf_ai/llm_router.py:174-257 | routes to the first registered level that answers; fails only if all raised |
| LlmRouter.RegisteredInOrder | backend/gaf_ai/llm_router.py:283-286 | the levels tried are the registered ones, in chain order |
| LlmRouter.LLMRouter.StreamChat | backend/gaf_ai/llm_router.py:259-330 | what the caller sees: the chunks of every client tried, up to the first that ends; who is remembered as the last success |
| LlmRouter.LastYieldingMeaning | backend/gaf_ai/llm_router.py:301-308 | when every client failed, the last one that gave a chunk is remembered, else whoever was before |
| LlmRouter.CommittedIff | backend/gaf_ai/llm_router.py:269-272 | the documented commitment holds of a call exactly when every client given up failed before its first chunk |
| LlmRouter.AlwaysCommittedIff | backend/gaf_ai/llm_router.py:269-330 | it holds whatever the clients do exactly when a single client is registered |
| LlmRouter.MixedStream | backend/gaf_ai/llm_router.py:308-319 | a call on a router with two registered levels in which the caller sees chunks of both |
| TaskLogger.BackendTaskLogger.Log | backend/gaf_core/task_logger.py:122-139 | the cached path is used unless the hour of day changed |
| TaskLogger.RunFreshIff | backend/gaf_core/task_logger.py:119-136 | over a whole run every event goes to the file of its own date and hour exactly when no event has the hour of day of the one before it on another date |
| TaskLogger.GapsKeepFresh | backend/gaf_core/task_logger.py:128-139 | events at most 23 hours apart all go to the file of their own date and hour |
| TaskLogger.OneSecondMoreIsStale | backend/gaf_core/task_logger.py:128-139 | the 23 hour bound is sharp |

## Left out

- Values that are not text or numbers where the guard reads ids, types and coordinates (a list as an
  id raises in Python); a missing or falsy field is the empty string.
- The wording of messages: errors and warnings are constructors that carry the reported data.
- The Windows lock backend, forked descriptors, and deletion of the lock file while it is held.
- An exception that arrives between a successful flock and the assignment of `_acquired`.
- The daemon's PID file, detached launch, service logs, health probes and control file; a launch is an
  outcome, and the manual and health paths are `ServiceInfo.Restart`.
- RagIndex.RAGRetriever.IndexCodeFiles: the directory walk is a list of files; a Python file comes with
  the symbols that `ast.walk` reports, since the Python parser is not modelled.
- RagIndex.RAGRetriever.IndexDocument: what ChromaDB does with an `add` outside a batch is a parameter;
  embeddings are not modelled.
- Chunk metadata: the diff looks at content only, so an unchanged chunk keeps its old metadata. The
  fields that differ from chunk to chunk of a file (line numbers, names, titles) are not modelled.
- The LLM rerank, the keyword similarity itself, and negative `top_k`.
- Floating-point rounding: scores and times are reals with any monotone rounding function.
- Unicode case folding: lower-casing is ASCII; `str.isalnum` is a parameter; `\d` is ASCII.
- Other I/O errors of the mirror, symbolic links, and the order in which paths are copied.
- SkillMirror.SyncConverges: paths are compared exactly. On a case-insensitive file system a source name
  that differs from a destination name in case only is copied into the old file, which pruning removes.
- Python's recursion limit: the two depth-first searches nest once per node of the current path, so a
  chain longer than the limit raises instead of returning; the nesting is bounded by the number of nodes.
- APScheduler's own behaviour: which cron fields raise is a parameter, day names are mapped as written
  and their meaning is not modelled; job operations succeed and both queries see the same records.
- DebugPath.FindExecDirById: only the first element of the sorted matches is used, so the sort is a
  search for the first match of greatest mtime. `os.listdir` raises an uncaught ValueError for a root with
  a NUL character; here such a root has no listing.
- SyncLock.WithRepoLock: what the body of the with statement does is not modelled.
- Directory names with alternative separators; paths use "/".
- Thread safety of the synonym table, the latency monitor and the broadcast state.
- backend/gaf_ai/tasks.py (pairing of tool calls with tool results, evidence check), vision routing,
  and all views, serializers, models and OAuth code: framework plumbing or easy members.
