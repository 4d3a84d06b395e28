# Verified model of the local engineer's stateful core

A Dafny model of the parts of the repository whose correctness spans many calls: the graph walk behind impact reports, the
indexer and its cache, the intent-first journal with crash recovery, worktree leases and human gates, the slot for one owned model
process, the append-only context, Language Server Protocol framing, the paired test of the evaluation, and the restart budget of
child processes. `dafny verify dfyconfig.toml` checks all of it.

| module | models |
|---|---|
| `Graph`, `Traverse`, `Impact` | the node and edge tables as sets, walks over them, the level-by-level traversal that refines them, and the report |
| `Index`, `Containment` | node and edge tables keyed by their conflict keys, the three-phase write, the directory tree |
| `Encoding`, `Decimal`, `Cache` | length-prefixed and NUL-separated streams, the content-addressed analyzer cache |
| `Journal`, `Recovery` | the operation rows, runs cut by crashes, and reconciliation by inspection |
| `Lease` | worktree claims over one nondecreasing clock |
| `Broker`, `GateRuns` | gate rows, `Ask`, `Decide`, `Pending`, and runs of them cut between any two writes |
| `ModelSlot` | calls, shutdowns, failures, timeouts and process deaths as interleaved steps over the shared slot |
| `ManagedCalls` | the calls of a managed provider as code, each statement a step of that machine, with anything in between |
| `ContextPack`, `Text` | truncation, token accounting and the prefix property of successive requests |
| `Framing` | the printer and parser of the base protocol (Language Server Protocol 3.17, section "Base Protocol") |
| `Binomial`, `Paired` | coin flips counted as sets, the exact two-sided test, pairing of runs |
| `Supervisor` | the sliding restart window, its in-place slice filter, and the backoff |
| `Collections`, `Ordering`, `Wrappers` | sizes of sets and lists, byte-wise string order, the stable sort, optional values and units of time |

Code that changes state step by step is a class or a method with loops, proved against a specification function or predicate. What the
source promises about whole runs is proved as lemmas over that specification. Concurrency in the model slot is a state machine in
which each receive, timer, failure and process exit is a step of its own; the methods of `ManagedCalls.Slot` let others take any
number of steps before each of their own statements, and are proved to be runs of that machine.

Parameters stand for what the model does not compute: hash functions (assumed injective where a lemma says so), analyzers (a function
of the origin of a request), the rows a capped query picks, the JSON form of a value, the wording of a reason, clock readings, and which
read or write fails.

## What the proofs found

- Traversal: the result never exceeds the node limit, even with more start nodes than that. `Traverse.Traverse` gives a condition on
  the tables and the query under which no cap fires, so that the report is complete and optimal.
- Restart window: the budget holds for windows that exclude their older end. A window closed at both ends can hold one start more,
  because a start exactly one window old is pruned. No run does so exactly when the window is shorter than the waits the budget forces
  (`Supervisor.ClosedWindowsHoldExactly`); the defaults, five starts in five minutes, can (`Supervisor.DefaultsCanOverspend`).
- Leases: the stored expiry is in whole milliseconds and the value a holder keeps is not, so two holders can both find their leases
  live, for less than a millisecond. `Lease.TakeoverInTheGap` says exactly when.
- Recovery: looking at the file classifies an edit rightly exactly when there is a file, or there was none before the edit
  (`Recovery.ClassifiedByContent`). A deletion that has taken hold reads as not applied, and so does an edit whose file was lost halfway;
  the latter can pass as safe to resume exactly when no candidate was completed or the last one does not hold the file
  (`Recovery.HalfAppliedIsNeverMissedExactly`, with a run in `Recovery.LostFilePassesAsSafe`).
- Impact: the report is marked only when a cap of the traversal fired, but a row cap can cut a report that is far below the limit and
  is not marked (`Impact.ImpactOf`, and for an ordinary table `Impact.UnmarkedCut`), although a cut report is meant to be presented as a lower bound.
- Gates: the upsert never refreshes a deadline. Once a gate has passed it, asking again puts the same row back to waiting with the old
  deadline, and no later decision on it is ever an answer (`GateRuns.PastItsDeadlineNeverAnswered`, with a run in
  `GateRuns.ApprovalLapses`).
- Gates: an id holds twelve characters of the candidate. An ask about other content with the same twelve puts an answered gate back to
  waiting; `GateRuns.AnswerSurvivesExactly` says which asks undo an answer.
- Gates: a ruling of "pending" closes the journalled approval and leaves the gate waiting
  (`GateRuns.RulingKeepsTheRecordExactly`).
- Policy: requiring a person for every breaking change lets through what the automatic limit gated when that limit is negative
  (`Broker.StricterGatesMore`).
- Policy: the one meant to approve everything automatically still asks about every breaking change, since its automatic limit is zero,
  and about every budget (`Broker.NamedPolicies`).
- Model slot: when a startup times out and its process cannot be stopped, the slot keeps naming it, and the next call with that key is
  forwarded without a readiness probe (`ModelSlot.ForwardsWhenReady`, `ModelSlot.VainGiveUpForwardsUnready`, with a run in
  `ModelSlot.StartupCanStick`).
- Paired test: no split of fewer than six discordant runs is ever decided, and some split of six or more always is
  (`Paired.DecidingTakesSix`).

## Model

| member | source | states |
|---|---|---|
| `Traverse.Traverse` | internal/graph/traverse.go:38-120 | Every reported node ends a real filtered walk of exactly its depth, last edge kind and weakest hop, whatever caps fire; nodes are reported once, in order, never more than the limit. When no cap fires the report holds every node within the depth bound, each at its shortest depth with the strongest weakest hop among walks of that length. Depth and node limits are the ones asked for, or one hop and 5000 nodes. States the errors, and when no cap can fire. |
| `Traverse.Expand` | internal/graph/traverse.go:137-202 | One level, in batches of any split and whatever rows the queries answer with: it only adds entries of this depth or strengthens them, every entry is backed by a walk, and unless the cap fired every passing edge out of the frontier has been relaxed. |
| `Traverse.FetchHop` | internal/graph/traverse.go:208-243 | Rows in any order: each keeps the best entry of its far end, new nodes stop at the limit, and the returned list is exactly the nodes first met here. |
| `Traverse.MeetRow` | internal/graph/traverse.go:219-241 | One row improves the entry of its far end, adds one below the limit, changes nothing, or meets a full table. |
| `Traverse.RowKeepsLevel` | internal/graph/traverse.go:219-241 | A row keeps every entry backed by a walk, only improves the level, and unless the table is full leaves the entry of its far end at least as good as the way over it. |
| `Traverse.CoversNext` | internal/graph/traverse.go:70-83 | A table that is optimal for walks of d-1 hops and has relaxed every edge of the level is optimal for walks of d hops. |
| `Traverse.EmptyLevelCovers` | internal/graph/traverse.go:70-83 | When a level is empty, no longer walk reaches anything new, so stopping early loses nothing. |
| `Traverse.Walk` | internal/graph/traverse.go:56-87 | The level loop leaves only entries with a walk behind them; when no cap fired they are optimal for every walk within the depth bound and fewer than the limit. |
| `Traverse.LoadNodes` | internal/graph/traverse.go:247-291 | Exactly the rows of the wanted ids that exist, each once, and refusal exactly when one belongs to another workspace. |
| `Traverse.SoundInBall` | internal/graph/traverse.go:56-83 | Every recorded node lies among the start nodes and the far ends of passing edges, which bounds the table by what a caller can count. |
| `Graph.WalkIsAChain` | internal/graph/traverse.go:137-176 | A forward walk leaves a start node by sources and ends in the destination of its last edge; a reverse one does so the other way round. Consecutive edges meet, and each is in the table with a kind and an evidence that was asked for. Nothing else is a walk. |
| `Graph.EvidenceOfAWalk` | internal/graph/traverse.go:11-18 | The evidence a walk is reported with is resolved, at least declared, observed at best, or unknown exactly when all, all, some or some of its hops are. |
| `Traverse.NearestFirst` | internal/graph/traverse.go:107-115 | In the report nearer nodes come first, then smaller kinds, then smaller names. |
| `Impact.VerdictRestsOnACertainWalk` | internal/graph/impact.go:79-151 | For a node reported at its shortest depth with its strongest evidence, a verdict other than undetermined is given exactly when the change is classified and some walk of that depth is resolved or declared hop by hop. |
| `Impact.ConsumersAreTold` | internal/graph/impact.go:79-151 | Edge kind by edge kind: a consumer of a report breaks exactly on the changes listed for the edge it is reached by, given certain evidence; it is undetermined exactly without that or without a classified change, and compatible exactly under an added field that it neither implements nor uses as a type. |
| `Impact.RemovalIsWorst` | internal/graph/impact.go:88-90 | With certain evidence a removal breaks every consumer, and no classified change is worse for the same consumer. |
| `Impact.WorstFirst` | internal/graph/impact.go:185-198 | Breaking consumers come first, then undetermined, compiling and compatible ones; among equals the nearer first, then by path and name. |
| `Impact.ReachedThroughDependents` | internal/graph/traverse.go:310-319 | The nodes the report looks at are exactly those that depend on a changed one in at most three steps, over edges of every kind and evidence. |
| `Impact.BuildImpact` | internal/graph/impact.go:156-200 | One consumer per reached unchanged node, sorted, with counts that agree with the list for every verdict. |
| `Impact.TalliedSums` | internal/graph/impact.go:62-74 | The counts of a tallied report add up to its number of consumers. |
| `Impact.CountsPlaces` | internal/graph/impact.go:66-67 | A count is the number of places in the list with that verdict. |
| `Impact.CountPermuted` | internal/graph/impact.go:180-199 | Sorting the consumers leaves every count right. |
| `Impact.ImpactOf` | internal/graph/traverse.go:296-323 | Refuses exactly unknown and foreign changed nodes; otherwise fails only when a reachable node belongs to another workspace. A report lists the changed nodes in order and honest consumers, each node once, counted and sorted; it is marked as cut exactly when changed nodes and consumers together reach the limit, and then a cap fired. Without a cap every reachable unchanged node is listed, with a claim exactly where certain evidence leads to it, which for a removal is that it breaks; and no cap fires while nodes and hops, counted before the call, stay below the limits. All of this holds whatever rows the hop queries answer with. |
| `Impact.MarkCounts` | internal/graph/traverse.go:310-322 | The comparison of rows with the limit can be read off the report: rows reach it exactly when distinct changed nodes plus consumers do. |
| `Impact.UnmarkedCut` | internal/graph/traverse.go:182-199 | A hundred and fifty changed functions that all call each other, and one caller of one of them: when the first query answers with calls among the changed, the report comes out empty and unmarked although the caller is a hop away. |
| `Impact.NoParallelEdges` | internal/store/migrations/index_001.sql:77-92 | That table has no two rows with one source, target and kind. |
| `Impact.ReportedConsumers` | internal/graph/impact.go:156-178 | The consumers are exactly the reached nodes that are not themselves changed, and no two are the same node. |
| `Impact.PublicImpact` | internal/graph/public.go:7-26 | Exactly the consumers whose path is not protected, in order, counted again so that the counts agree, and marked truncated exactly when something was hidden or it was before. |
| `Impact.VisibleMembers` | internal/graph/public.go:12-24 | Filtering keeps exactly the unprotected consumers, and is shorter exactly when one was protected. |
| `Impact.VisibleKeepsOrder` | internal/graph/public.go:17-24 | Filtering a sorted list leaves it sorted. |
| `Impact.VisibleNodesMembers` | internal/graph/public.go:7-12 | The changed nodes shown are exactly those whose path is not protected. |
| `Index.Tables.UpsertNodes` | internal/graph/sqlite.go:39-79 | Commits all nodes, or none when one has no listed kind or no name; an existing key keeps its id and takes the new columns, a new one gets an unused id, and ids come back in the order of the input. |
| `Index.Tables.UpsertEdges` | internal/graph/sqlite.go:81-114 | Succeeds exactly when every edge has set endpoints that are stored nodes, a listed kind, a known category and a source; then the last edge of a conflict key wins, else nothing changes. |
| `Index.Tables.NodeByFQN` | internal/graph/sqlite.go:140-148 | Finds a node exactly when its key is stored, with its id. |
| `Index.UpsertedKeeps` | internal/graph/sqlite.go:39-79 | Node upserts keep ids unique, never change an id, and so leave every stored edge between the same nodes. |
| `Index.UpsertedColumns` | internal/graph/sqlite.go:42-51 | Of several nodes with one key the last one gives the row all its columns; rows of other keys keep theirs. |
| `Index.LastNodeWins` | internal/graph/sqlite.go:42-51 | The last node of a key gives its row every column as it says them, an empty attribute text excepted, which is stored as an empty object. |
| `Index.Lookup` | internal/index/index.go:601-625 | The memoised endpoint lookup answers as the table does, for found and for missing nodes. |
| `Index.WriteEdges` | internal/index/index.go:601-646 | Writes exactly the pending edges whose endpoints both exist, or none when one is malformed, and counts them. |
| `Index.WrittenEdges` | internal/index/index.go:601-646 | Edge by edge: an edge changes exactly when this analyzer names it between existing nodes, and its last mention wins. |
| `Index.ResolvedAccepted` | internal/graph/sqlite.go:81-95 | The validation of resolved rows rejects exactly the analyzers the specification rejects. |
| `Index.IndexAnalyzers` | internal/index/index.go:214-258 | Nodes of all analyzers and then edges of all analyzers leave exactly the specified keys and edges, and fail exactly on a node without a listed kind or a name, or a surviving edge without a listed kind, a category or a source. |
| `Index.RefusedExactly` | internal/graph/types.go:168-186 | Spelled out: indexing is refused exactly for a node without a listed kind or a name, or an edge between known nodes whose kind is unset or unlisted, whose evidence is some other text, or whose analyzer has no name. |
| `Index.LastMentionWins` | internal/index/index.go:619-641 | Of several mentions of one edge by an analyzer the last is written, with the evidence and attributes it gives; unset evidence becomes unknown. |
| `Index.NothingIsMadeUp` | internal/index/index.go:619-641 | Every edge that indexing leaves was there before, or was said by an analyzer under its own name between known nodes; it is certain only if it was said to be. |
| `Index.AnalyzerOrderIrrelevant` | internal/index/index.go:214-258 | Any permutation of analyzers with distinct names gives the same node keys, the same edges and the same verdict on failure. |
| `Index.FinalByName` | internal/index/index.go:250-257 | With distinct names, only the analyzer of that name decides an edge. |
| `Containment.ContainmentIsATree` | internal/index/index.go:435-496 | For clean paths: each vertex but the root has exactly one parent edge, the parent is a vertex, every vertex is below the root, and nothing is above the root. |
| `Containment.VerticesExactly` | internal/index/index.go:436-462 | The vertices are the root, every file, and every directory whose path and a slash begin the path of some file. |
| `Containment.ChildrenExtendTheirParent` | internal/index/index.go:476-490 | Each containment edge leads from the root to a name without a slash, or from a directory to its own path, a slash and one more component. |
| `Containment.PathInParts` | internal/index/index.go:447-462 | A clean path is its directory, a slash and its last component, or just that component below the root. |
| `Containment.AboveExactly` | internal/index/index.go:436-441 | The directories above a clean path are exactly the parts before one of its slashes. |
| `Containment.ColumnsSay` | internal/index/index.go:448-462 | A vertex is stored under its last component; a file with the id and hash of its row, a directory with neither. |
| `Containment.Rooted` | internal/index/index.go:476-490 | Each vertex is some number of containment edges below the root. |
| `Containment.AddParents` | internal/index/index.go:437-441 | The parent loop ends for every clean path and adds exactly the directories above it. |
| `Containment.CollectDirs` | internal/index/index.go:436-446 | The directory set is the root and every directory above some file. |
| `Containment.TreeEdges` | internal/index/index.go:470-490 | Every lookup of an endpoint succeeds, so there is exactly one edge per vertex but the root. |
| `Containment.WriteFilesystemGraph` | internal/index/index.go:435-496 | After the write the stored containment edges are exactly the tree's, every other edge is as before, each vertex has the columns of its directory or file, and edges number nodes minus one. |
| `Encoding.PutUvarint` | internal/cache/cache.go:123-130 | The loop prints the variable-length form that `ReadBack` reads. |
| `Encoding.ReadBack` | internal/cache/cache.go:123-130 | A printed length reads back as itself and leaves what follows it. |
| `Encoding.RoundTrip` | internal/cache/cache.go:121-130 | The length-prefixed stream decodes back to its components. |
| `Encoding.ComponentsInjective` | internal/cache/cache.go:121-130 | Two component lists share a stream only when they are the same. |
| `Encoding.WriteComponents` | internal/cache/cache.go:123-130 | The loop feeds the hasher exactly that stream, after what it held. |
| `Encoding.ManifestOf` | internal/cache/cache.go:108-119 | The manifest is the hash of a stream that depends on the map alone, not on the order its keys came in. |
| `Encoding.ManifestInjective` | internal/index/index.go:706-724 | Distinct path-to-hash maps have distinct streams, for the index key as for the cache manifest, which encode alike. |
| `Encoding.NulTerminatedInjective` | internal/ledger/recover.go:409-417 | Without NULs in them, texts are determined by their NUL-terminated stream. |
| `Encoding.WorktreeInjective` | internal/ledger/recover.go:376-418 | Without NULs in paths and hashes, two worktrees share a manifest stream only when they are the same. |
| `Ordering.SortedKeysUnique` | internal/cache/cache.go:110-114 | A key set has one sorted order, so what is computed from it is a function of the set. |
| `Ordering.Lexicographic` | internal/cache/cache.go:110-114 | One string sorts before another exactly when it is a proper prefix or smaller at the first difference. |
| `Ordering.StableSortCorrect` | internal/graph/impact.go:185-198 | The sort is a sorted permutation and keeps ties in their order. |
| `Decimal.AtoiOfItoa` | internal/lsp/client.go:493-497 | The decimal a header prints parses back to the same number, up to the largest int. |
| `Decimal.SignedAtoi` | internal/lsp/client.go:493-497 | Signs are read, and a number parses exactly within 64 bits on its side of zero. |
| `Decimal.ItoaInjective` | internal/cache/cache.go:68-69 | Different indexer versions have different texts. |
| `Cache.KeyInjective` | internal/cache/cache.go:64-72 | Two requests share a cache key only when version, workspace, analyzer and path-to-hash map are all the same. |
| `Cache.ServeFresh` | internal/index/index.go:744-773 | From a consistent store a call answers what a fresh analysis would and leaves the store consistent, through hits, misses, unparseable entries and failed puts. |
| `Cache.ThenItHits` | internal/index/index.go:744-773 | A call that met no fault is answered from the store the next time, even by an analyzer that now fails or says something else. |
| `Cache.LastHashCounts` | internal/index/index.go:744-750 | Of several files with one path the last hash is the one in the key. |
| `Cache.AlwaysConsistent` | internal/index/index.go:744-773 | Every sequence of calls of any version and workspace, with entries lost or damaged beyond parsing in between, keeps the store consistent. |
| `Cache.EveryCallIsFresh` | internal/index/index.go:744-773 | At any point of any such sequence the answer of a call is the fresh one. |
| `Cache.Analyze` | internal/index/index.go:744-773 | The procedure, built on the cache's own calls, does exactly that, store included. |
| `Cache.BlobCache.KeyOf` | internal/cache/cache.go:64-72 | The key is the hash of version, workspace, namespace and manifest, in that order. |
| `Cache.BlobCache.Get` | internal/cache/cache.go:75-86 | Hit, miss or fault by what is stored, and the counters count hits and misses only. |
| `Cache.BlobCache.Put` | internal/cache/cache.go:89-91 | Stores the body under the key that `Get` computes, or nothing on a fault. |
| `Journal.Ledger.Begin` | internal/ledger/ledger.go:83-113 | Appends one uncertain row numbered next in its task, or nothing and no handle. |
| `Journal.SequenceOrder` | internal/ledger/ledger.go:88-100 | Each task's rows carry 1, 2, 3 and so on in journal order. |
| `Journal.Ledger.Operations` | internal/ledger/ledger.go:245-271 | Exactly that task's rows, in sequence order. |
| `Journal.Ledger.Checkpoint` | internal/ledger/ledger.go:274-294 | Writes state, handoff and candidate at the journal's current number, over an older checkpoint of the same number. |
| `Journal.Ledger.LastCheckpoint` | internal/ledger/ledger.go:297-307 | The checkpoint with the highest number, which is the one written last, however the journal has grown since; number 0 when there is none. |
| `Journal.Handle.Finish` | internal/ledger/ledger.go:215-235 | Writes the outcome of its own row once; a spent handle writes nothing. |
| `Journal.Handle.Complete` | internal/ledger/ledger.go:164-166 | Records outcome, candidate and evidence on its own row. |
| `Journal.Handle.Fail` | internal/ledger/ledger.go:168-177 | A definite failure gets an outcome, and no candidate or evidence. |
| `Journal.Handle.Interrupted` | internal/ledger/ledger.go:179-213 | Keeps the cause, writes no outcome, and spends the handle. |
| `Journal.RunSound` | internal/ledger/ledger.go:83-235 | In every run, cut by crashes anywhere, rows stay numbered and every open handle names an uncertain row. |
| `Journal.StepKeepsRows` | internal/ledger/ledger.go:196-235 | No call removes or renumbers a row or changes its intent. |
| `Journal.RowsAreAsCalled` | internal/ledger/ledger.go:83-235 | In every run each row says what the call that began it said and what the one call that finished it wrote: outcome, candidate and evidence, or none of them. |
| `Journal.CauseIsKept` | internal/ledger/ledger.go:190-213 | An interrupted operation keeps its cause and stays uncertain through every later call. |
| `Journal.UncertainExactly` | internal/ledger/ledger.go:77-79 | In every run, an operation is uncertain exactly when no call wrote its outcome. |
| `Journal.LeftBehindStaysUncertain` | internal/ledger/ledger.go:179-213 | An operation left by a crash or an interruption stays uncertain for good and keeps its intent. |
| `Recovery.RecoverTask` | internal/ledger/recover.go:155-255 | Fails exactly when a counted file of the worktree cannot be read. Otherwise checkpoint number, objective, remaining plan and next action come from the last checkpoint if its handoff parses, and every other field is what the journal and the worktree determine. |
| `Recovery.LastCompletedIs` | internal/ledger/recover.go:172-177 | The last completed candidate is the one recorded by the last row that both finished and left one, and empty exactly when there is no such row. |
| `Recovery.LastOfThem` | internal/ledger/recover.go:172-177 | A completed row with a candidate decides, however many rows without one, or unfinished, come after it. |
| `Recovery.UncertainInOrder` | internal/ledger/recover.go:174-181 | The uncertain operations are listed in sequence order. |
| `Recovery.ReconstructedFrom` | internal/ledger/recover.go:201-243 | Entry by entry: files inspected, symbols searched, decisions accepted and rejected, and edits completed. |
| `Recovery.RecoveryListsTheUncertain` | internal/ledger/recover.go:171-180 | Over every run, recovery lists an operation exactly when no call wrote its outcome. |
| `Recovery.ClassifiedByContent` | internal/ledger/recover.go:284-333 | For an edit between any two states of a file, no file included: the verdict is the truth exactly when there is a file, or there was none before the edit; and only "not applied" can be wrong. A file with the new text reads as complete, with the old text or missing as not applied, with any other as half applied. |
| `Recovery.UnknownExactly` | internal/ledger/recover.go:284-332 | Nothing is said of an operation exactly when it is no edit of a named file, there is no worktree, or the file cannot be read. |
| `Recovery.CutEditIsClassified` | internal/ledger/recover.go:278-333 | Cut after any writes and removals, the edit in flight is classified by its last one, rightly exactly when that left a file or there was none to begin with. |
| `Recovery.CutEditIsListed` | internal/ledger/recover.go:155-182 | Over every run: an edit whose outcome no call wrote is listed, and classified rightly exactly under that condition. |
| `Recovery.DeletionReadsAsNotApplied` | internal/ledger/recover.go:309-314 | A deletion that has taken hold, and so is complete, reads as not applied. |
| `Recovery.LostFileReadsAsNotApplied` | internal/ledger/recover.go:309-314 | The half-applied edits that looking misses are exactly those of a file that was there, was to stay, and is gone. |
| `Recovery.LostFilePassesAsSafe` | internal/ledger/recover.go:96-103 | A run of the failing kind: the one edit of a task is cut before any candidate was recorded. |
| `Recovery.ManifestIdentifiesTree` | internal/ledger/recover.go:372-418 | Two worktrees share a manifest exactly when their tracked files are the same. |
| `Recovery.ContentManifest` | internal/ledger/recover.go:376-418 | The walk and the loop hash exactly the stream of sorted path and content-hash pairs of the counted files, or fail at one that cannot be read. |
| `Recovery.SafeMeansSame` | internal/ledger/recover.go:93-103 | With a completed candidate, resuming is safe exactly when no uncertain edit reads as partial and the worktree's files, read from the same disk, are those the candidate was taken from. |
| `Recovery.SafeToResumeSays` | internal/ledger/recover.go:96-103 | What the recovered state answers is that condition on the journal and the worktree. |
| `Recovery.SafeExcludesHalfApplied` | internal/ledger/recover.go:93-103 | With a completed candidate, an edit that is half-applied while resuming is safe has lost a file that was there, was to stay, and is not in the candidate. |
| `Recovery.HalfAppliedIsNeverMissedExactly` | internal/ledger/recover.go:93-103 | For the one uncertain edit of a task, from a text to a text: in no readable worktree is it half-applied while resuming is safe, exactly when a candidate was completed and holds the file. |
| `Recovery.UnsafeStartsWithRepair` | internal/ledger/recover.go:257-276 | Without a handoff the next action is a repair exactly when resuming is not safe; otherwise stale evidence is gathered again first, then come the remaining steps. |
| `Recovery.EarliestPartialFirst` | internal/ledger/recover.go:257-262 | A repair starts with the first operation listed that reads as half applied. |
| `Recovery.Reconcile` | internal/ledger/recover.go:171-182 | The loop finds every uncertain operation in order and the last recorded candidate. |
| `Recovery.Reconstruct` | internal/ledger/recover.go:202-243 | Files, symbols, decisions, rejected hypotheses and completed edits are exactly those of the journal. |
| `Recovery.EvidenceFor` | internal/ledger/recover.go:335-352 | Evidence is stale exactly when it and the worktree have manifests and they differ. |
| `Recovery.StaleExactly` | internal/ledger/recover.go:334-352 | Evidence gathered on some files is stale exactly when the worktree no longer holds those files, text for text. |
| `Lease.Ledger.AcquireLease` | internal/ledger/lease.go:33-68 | Grants, refuses and stores as the row and the clock decide. |
| `Lease.Ledger.RenewLease` | internal/ledger/lease.go:71-95 | Only the holder renews; nobody else changes the row. |
| `Lease.Ledger.ReleaseLease` | internal/ledger/lease.go:98-104 | Removes the row exactly when its holder asks. |
| `Lease.LeasesNeverOverlap` | internal/ledger/lease.go:30-104 | In every run under one nondecreasing clock, two holders' latest unreleased leases of one worktree never both lie before their stored expiry. |
| `Lease.LiveClaimIsNotStolen` | internal/ledger/lease.go:33-56 | While a claim's stored expiry lies ahead, everyone else is refused and told who holds it. |
| `Lease.RefusedExactly` | internal/ledger/lease.go:33-71 | A claim is refused exactly while another holder's row has not expired; otherwise it is granted for the time asked, or a minute, and only that row changes. |
| `Lease.LiveClaimRenews` | internal/ledger/lease.go:74-97 | In every run a live claim can be renewed, and everyone else is refused until the expiry stored then. |
| `Lease.OthersCannotTouch` | internal/ledger/lease.go:74-106 | Nobody renews or releases a worktree whose row names another holder. |
| `Lease.ReleasedIsFree` | internal/ledger/lease.go:99-106 | In every run releasing a live claim frees its worktree, and no other, for whoever asks next. |
| `Lease.RoundingGap` | internal/ledger/lease.go:57-66 | The value a holder keeps outlives its row by less than a millisecond. |
| `Lease.BothLookLiveOnlyInTheGap` | internal/ledger/lease.go:28-68 | Two leases look live at once only while one of them is inside that gap. |
| `Lease.TakeoverInTheGap` | internal/ledger/lease.go:28-68 | Another holder's claim succeeds while the first lease still looks live exactly when it comes between stored and kept expiry, ends included. |
| `Lease.TwoHoldersLookLive` | internal/ledger/lease.go:28-68 | For any worktree and two holders, a run that ends that way. |
| `Broker.SameIdExactly` | internal/broker/broker.go:394-401 | Without dashes in the candidates' first twelve characters, two gates share an id exactly when task, kind and those characters agree. |
| `Broker.StricterGatesMore` | internal/broker/broker.go:131-160 | Requiring a person for breaking changes gates everything the automatic limit gated exactly when that limit is not negative. |
| `Broker.GatedExactly` | internal/broker/broker.go:131-160 | Which switch gates which kind: plans, applying and files out of scope by theirs, breaking consumers by theirs or beyond the automatic limit without it, a budget always. |
| `Broker.NamedPolicies` | internal/broker/broker.go:111-127 | The policy documented as approving everything still asks about every breaking change and every budget; the default one lets only plans, and changes without breakage or files out of scope, through unasked. |
| `Broker.DiffIsBounded` | internal/broker/broker.go:231-234 | A gate carries the diff whole up to forty thousand characters, else exactly that many and where to find the rest; the other evidence is as given. |
| `Broker.Broker.Save` | internal/broker/storage.go:13-39 | Inserts the row, or updates only decision, decider, note and decision time. |
| `Broker.Broker.List` | internal/broker/storage.go:42-79 | Exactly the selected rows, each once, oldest first. |
| `Broker.Broker.Get` | internal/broker/broker.go:347-356 | The row with that id, or none. |
| `Broker.Broker.FindDecided` | internal/broker/broker.go:363-384 | The backward scan finds the one row that the content's id names, exactly when it is decided, unexpired and about exactly that content. |
| `Broker.Broker.Ask` | internal/broker/broker.go:214-265 | The result and both tables after an ask, whole or cut at any read or write. |
| `Broker.Broker.CloseApproval` | internal/broker/broker.go:282-300 | Closes the first open approval that names the gate, and no other row. |
| `Broker.Broker.Complete` | internal/broker/broker.go:304-317 | Sets the outcome of one row and leaves the rest of the journal, and its numbering, alone. |
| `Broker.Broker.Decide` | internal/broker/broker.go:268-302 | The verdict and both tables after a ruling, whole or cut at any read or write; a decided gate is not decided again. |
| `Broker.Broker.Pending` | internal/broker/broker.go:319-341 | Returns every waiting gate once, oldest first, with each overdue one decided as expired at its own clock reading, or as it was when that decision failed. |
| `GateRuns.RunSound` | internal/broker/broker.go:214-341 | In every run, rows sit under ids derived from their content and the journal stays numbered. |
| `GateRuns.QuestionsNeverChange` | internal/broker/storage.go:26-36 | No call removes a gate or changes what it asks, its evidence, its candidate, its creation time or its deadline. |
| `GateRuns.PastItsDeadlineNeverAnswered` | internal/broker/broker.go:226-264 | Once a gate is past its deadline, no later gated ask about its content is ever answered, whatever is decided. |
| `GateRuns.ApprovalLapses` | internal/broker/broker.go:226-264 | A run in which a gate with a timeout is approved: the same ask gets the approval up to the deadline, and waits again after it. |
| `GateRuns.EveryDecisionWasRuled` | internal/broker/broker.go:268-281 | Every decided row carries the decision, decider and note of an earlier ruling on that row while it waited. |
| `GateRuns.ApprovalNeedsARuling` | internal/broker/broker.go:209-265 | Kind by kind and switch by switch of the policy: where it asks a person, an ask is approved, or rejected, only after a ruling of exactly that answer on a waiting row with exactly that task, kind and full candidate, by the person and at the time the row shows; without a candidate it never is. |
| `GateRuns.OthersPassUnasked` | internal/broker/broker.go:215-219 | What the policy does not gate is approved at once, wherever the call is cut, and neither table changes. |
| `GateRuns.FirstAskWaits` | internal/broker/broker.go:231-267 | The first ask under an id opens a waiting gate about exactly that content, with a deadline exactly when the policy has a timeout, and journals it; other gates and rows stay. |
| `GateRuns.QuestionIsShown` | internal/broker/broker.go:240-245 | The gate shows the question asked with the reason for asking, but for spaces in front. |
| `GateRuns.AnswerSurvivesExactly` | internal/broker/broker.go:240-264 | A whole ask undoes an answered row exactly when it is gated, has that row's id, and is about other content or comes after the deadline. |
| `GateRuns.AnswerStands` | internal/broker/broker.go:220-230 | As long as no such ask happens, the answered row stays as it is. |
| `GateRuns.StandingAnswerIsReused` | internal/broker/broker.go:226-230 | An ask that meets its own standing answer gets it and writes nothing, to either table. |
| `GateRuns.SameAnswerForGood` | internal/broker/broker.go:220-230 | Without timeouts and without other content under the id, every later ask gets the same answer and opens nothing. |
| `GateRuns.WaitingGatesAreOnRecord` | internal/broker/broker.go:251-264 | In every run without a ruling of "pending", however asks and rulings are cut, each waiting gate is named by an open approval in the journal. |
| `GateRuns.RulingKeepsTheRecordExactly` | internal/broker/broker.go:268-302 | A ruling on a gate that some ask can open keeps that, from every state a run reaches with it, exactly when it is not "pending". |
| `GateRuns.FirstRuling` | internal/broker/broker.go:251-302 | In the run of one ask and one ruling on its gate, the record is kept exactly when the ruling is not "pending". |
| `GateRuns.CloseTouchesItsGate` | internal/broker/broker.go:287-300 | Closing an approval leaves every row that does not name the gate as it was. |
| `GateRuns.ClosesTheFirst` | internal/broker/broker.go:284-302 | A ruling closes the first open approval of the task that names the gate, with its outcome, and no other row. |
| `GateRuns.ExpiryIsExact` | internal/broker/broker.go:319-341 | A listing without faults expires exactly the waiting gates past their deadline, as expired and not as rejected. |
| `GateRuns.UnlistedStay` | internal/broker/broker.go:322-341 | A listing adds and removes no gate and leaves those it does not list alone. |
| `ModelSlot.RunSafe` | internal/llm/managed.go:74-241 | Every interleaving keeps the gate with one call, slot fields that agree with each other, and every process not yet waited for in the slot. |
| `ModelSlot.AtMostOneAlive` | internal/llm/managed.go:86-176 | In every interleaving at most one owned process is alive, and the slot names it. |
| `ModelSlot.StartsIntoAnEmptySlot` | internal/llm/managed.go:108-151 | A process is started only when every earlier one has exited and been waited for. |
| `ModelSlot.NeverWaitsForASpentExit` | internal/llm/managed.go:86-176 | No call ever stands at a receive from a channel whose one exit value was received before. |
| `ModelSlot.ReceivedOnce` | internal/llm/managed.go:151-163 | The exit value of a process is received at most once in a run. |
| `ModelSlot.ForwardsToItsOwnModel` | internal/llm/managed.go:177-227 | A request is forwarded only while its call fills the gate and the process in the slot serves its key. |
| `ModelSlot.StopsOnlyItsOwn` | internal/llm/managed.go:86-107 | A stop for closing or for giving up a startup is only ever of the process of the very provider that asks. |
| `ModelSlot.ClosesExactly` | internal/llm/managed.go:228-241 | In every run a closing provider goes on to stop the process exactly when it owns it, and to the release exactly when it does not. |
| `ModelSlot.FirstRequestIsServed` | internal/llm/managed.go:108-186 | From every state with an empty slot a request can start its server, be forwarded once it answers, and leave it running. |
| `ModelSlot.AnotherModelReplaces` | internal/llm/managed.go:108-151 | A request for another key ends the process in the slot, receives its exit and starts its own. |
| `ModelSlot.ClosingEndsItsOwn` | internal/llm/managed.go:228-241 | Closing ends the provider's own process and empties the slot; closing by any other provider changes nothing. |
| `ModelSlot.OneRequestAtATime` | internal/llm/managed.go:74-85 | No two calls are inside at once. |
| `ModelSlot.InsideOnlyMovesOn` | internal/llm/managed.go:86-241 | Every step of the call inside brings it nearer to releasing the gate, and nothing else moves it. |
| `ModelSlot.GateComesBack` | internal/llm/managed.go:86-241 | From every reachable state the holder can release the gate within ten steps of its own, even if no process ever exits. |
| `ModelSlot.ForwardsWhenReady` | internal/llm/managed.go:154-176 | If no timed-out startup fails to stop its process, requests reach only servers that answered a health probe. |
| `ModelSlot.StartupCanStick` | internal/llm/managed.go:154-167 | A run that reaches such a failure, with every other call idle and the process not exited. |
| `ModelSlot.VainGiveUpForwardsUnready` | internal/llm/managed.go:109-117 | After such a failure, the next call of that key is forwarded to the process that never became ready. |
| `ManagedCalls.Slot.Stop` | internal/llm/managed.go:86-107 | Whatever others do meanwhile, a stop is a run of the machine: it succeeds with the slot empty, or meets a time-out and fails with the slot still naming its process. |
| `ManagedCalls.Slot.Reuse` | internal/llm/managed.go:109-117 | Afterwards the owner has the caller's key exactly when the slot is to be reused, and then no exit is waiting; a delivered exit was received and its process forgotten. |
| `ManagedCalls.Slot.AwaitReady` | internal/llm/managed.go:154-175 | The startup loop is a run of the machine through an exit, the deadline or a probe that succeeds. |
| `ManagedCalls.Slot.Prepare` | internal/llm/managed.go:108-176 | Prepare is a run of the machine from holding the gate to a server that may be used, or to a failure on the way. |
| `ManagedCalls.Slot.Chat` | internal/llm/managed.go:177-186 | Every request, cut by others anywhere, either forwards at a moment of its own when it holds the gate and the process in the slot serves its key and is the only owned one that may be alive, or met a failure of its own: cancelled, refused, exited or late in startup, or unable to stop what was there. It always ends by giving the gate back. |
| `ManagedCalls.Slot.Close` | internal/llm/managed.go:228-241 | Closing begins a stop only at a moment when this very provider owns the process, and otherwise none at all. When it succeeds there is a moment, with the gate held and nothing left to do, at which the provider owns no process; else it was cancelled or could not stop it. It always ends by giving the gate back. |
| `ContextPack.TruncatedLines` | internal/contextpack/pack.go:256-290 | A truncated tool result is the first 60 lines, a notice with the right number omitted, and the last 40: 103 lines. |
| `ContextPack.TruncateIdempotent` | internal/contextpack/pack.go:266-290 | Truncating again changes nothing, for every kind and body. |
| `ContextPack.TruncatesExactly` | internal/contextpack/pack.go:272-289 | Truncation changes exactly the tool results of more than 103 lines. |
| `ContextPack.NoticeTells` | internal/contextpack/pack.go:284-289 | The notice holds the number of lines left out, and differs for different numbers. |
| `ContextPack.NoMarkerSurvives` | internal/trust/trust.go:96-113 | Fenced content holds neither an opening nor a closing marker anywhere after it was rewritten, and content without one is shown as it is. |
| `ContextPack.FencedUnlessOwn` | internal/contextpack/pack.go:176-221 | Only what the model said is sent as its own, unchanged; all else is sent as a user's, rewritten, between an opening and a closing marker. |
| `ContextPack.FrozenTurnShows` | internal/contextpack/pack.go:171-209 | The frozen messages show policy, preamble and every section that is not blank. |
| `ContextPack.TailBegins` | internal/contextpack/pack.go:155-163 | The tail begins with the instruction, and has nothing else exactly when there is no budget to note. |
| `ContextPack.RequestBytes` | internal/contextpack/pack.go:225-303 | A request without its tail holds at most four bytes per estimated token, and two; no estimate exceeds its text by more than four bytes a part. |
| `ContextPack.Pack.Append` | internal/contextpack/pack.go:124-133 | Appends the truncated block exactly when the sum of rendered estimates stays within the log budget, else changes nothing; no tool result in the log has more than 103 lines. |
| `ContextPack.Pack.Fits` | internal/contextpack/pack.go:138-141 | Answers what `Append` would. |
| `ContextPack.Pack.Messages` | internal/contextpack/pack.go:171-187 | The frozen messages, one message per log entry, and the tail if it is not blank. |
| `ContextPack.RequestsExtend` | internal/contextpack/pack.go:165-187 | Within a phase, every earlier request without its tail is a prefix of every later one. |
| `ContextPack.LogNeverOverspent` | internal/contextpack/pack.go:114-133 | No sequence of appends overspends the log. |
| `ContextPack.New` | internal/contextpack/pack.go:100-112 | Builds exactly with a valid fence, room for both regions and a prefix within budget, and names the first reason otherwise. |
| `ContextPack.Repack` | internal/contextpack/pack.go:241-254 | A new phase starts with an empty log and the same policy, repository card and map, and fails exactly on its budget. |
| `Text.JoinOfSplit` | internal/contextpack/pack.go:276-289 | Joining the lines of a text gives it back. |
| `Text.SplitOfJoin` | internal/contextpack/pack.go:276-289 | Splitting joined lines gives them back. |
| `Text.TrimmedParts` | internal/contextpack/pack.go:183-200 | Trimming takes spaces off both ends and nothing else. |
| `Text.BlankExactly` | internal/contextpack/pack.go:183-200 | A text counts as blank exactly when it is nothing but spaces. |
| `Framing.Reader.ReadMessage` | internal/lsp/client.go:478-512 | The loop reads what the specification reads and leaves the rest of the stream. |
| `Framing.FrameReadsBack` | internal/lsp/client.go:413-422 | A printed frame, with other header lines around the length and its name in any case, reads back as its body and leaves exactly what follows. |
| `Framing.FramesReadBack` | internal/lsp/client.go:413-512 | Any concatenation of printed frames reads back as the bodies in order with nothing left over. |
| `Framing.OversizedIsRefused` | internal/lsp/client.go:502-506 | A body over the limit is refused, whatever follows. |
| `Framing.CutBodyFails` | internal/lsp/client.go:507-510 | A stream that ends inside a body is an end of input, never a shorter body. |
| `Framing.NoLengthIsRefused` | internal/lsp/client.go:499-501 | Headers that set no length are refused at the blank line. |
| `Framing.CaseIsIgnored` | internal/lsp/client.go:489-492 | Header names match when they differ at most in the case of letters. |
| `Framing.Writer.Write` | internal/lsp/client.go:413-422 | Appends one frame of that body to what was sent. |
| `Framing.WrittenReadsBack` | internal/lsp/client.go:413-512 | Whatever bodies within the limit the client writes come back from the receive loop in order with nothing left over. |
| `Framing.Receive` | internal/lsp/client.go:426-453 | The receive loop gets exactly the readable bodies, and stops at the first frame it cannot read. |
| `Binomial.ExactlySize` | internal/eval/paired.go:92-114 | Exactly "n choose k" of the 2^n outcomes of n coins have k heads. |
| `Binomial.FactorialForm` | internal/eval/paired.go:116-123 | The recursive count is the quotient of factorials that the logarithms spell out. |
| `Binomial.TailsMirror` | internal/eval/paired.go:92-114 | The upper tail has as many outcomes as the lower. |
| `Binomial.ClampedTailCounts` | internal/eval/paired.go:98-114 | The doubled lower tail, clamped at everything, counts the outcomes at least as lopsided as k, for every k up to n, the even middle included. |
| `Paired.ExactBinomialTwoSided` | internal/eval/paired.go:98-114 | The loop computes the share of equally likely splits at least as lopsided as k of n. |
| `Paired.TwoSidedSymmetric` | internal/eval/paired.go:98-104 | k and n-k give the same probability. |
| `Paired.TwoSidedMonotone` | internal/eval/paired.go:92-114 | A more lopsided split is never more probable under the test. |
| `Paired.DecidingTakesSix` | internal/eval/paired.go:40-43 | Some split of n discordant runs is decided exactly when n is at least six. |
| `Paired.DecidedExactly` | internal/eval/paired.go:40-43 | A comparison is decided exactly when fewer than one in twenty splits are as lopsided as its disagreements, and never with fewer than six of them. |
| `Paired.PairArms` | internal/eval/paired.go:57-90 | The loops count exactly the four cells of the runs both arms completed, and the test of the discordant ones. |
| `Paired.SwapArms` | internal/eval/paired.go:57-90 | Swapping the arms swaps the two discordant counts and keeps the rest, the probability included. |
| `Paired.CellsPartition` | internal/eval/paired.go:35-38 | The four cells partition exactly the runs both arms completed. |
| `Paired.OneMoreRun` | internal/eval/paired.go:57-90 | One more run completed by both arms adds to exactly one count: the variant's when only the variant solved it, the baseline's when only the baseline did, else both or neither. |
| `Paired.LatestIsLast` | internal/eval/paired.go:58-68 | The last completed run of an arm under a key decides; errored runs never do. |
| `Paired.ErroredCountsForNothing` | internal/eval/paired.go:52-66 | A run that ended in an error changes nothing in the comparison, even over an earlier one that completed. |
| `Supervisor.RestartTimes.Prune` | internal/procman/procman.go:206-213 | The filter that overwrites its own backing array leaves exactly the times after the cutoff, in order. |
| `Supervisor.RestartTimes.Append` | internal/procman/procman.go:222-222 | Appends one time, in place or into a larger array. |
| `Supervisor.Supervise` | internal/procman/procman.go:197-242 | The loop's starts, waits and final status are those of the specified run, whose clock advances by the delays it meets, the child's running time and the waits themselves. |
| `Supervisor.RestartBudgetHolds` | internal/procman/procman.go:205-222 | In every run, every window of one window length that excludes its older end holds at most the budgeted number of starts. |
| `Supervisor.GivesUpWhenSpent` | internal/procman/procman.go:205-220 | The loop gives up exactly when the start a full budget ago is less than a window old at pruning; one exactly a window old no longer counts. |
| `Supervisor.CancelledExactly` | internal/procman/procman.go:202-237 | A turn ends the loop as cancelled exactly when the context was cancelled before it, or while the child ran or the loop waited and it had not given up; and it adds a start exactly when it gets that far. |
| `Supervisor.EndsForGood` | internal/procman/procman.go:202-237 | Once cancelled or given up, the loop starts and waits for nothing more. |
| `Supervisor.ClosedWindowsHoldExactly` | internal/procman/procman.go:205-237 | For a budget of at least one start: every run keeps to it in every window that includes both ends, exactly when the window is shorter than the waits the budget forces. |
| `Supervisor.DefaultsCanOverspend` | internal/procman/procman.go:73-83 | With the defaults, five starts in five minutes against 31 seconds of waits, some run has six starts in such a window. |
| `Supervisor.ClosedWindowExactly` | internal/procman/procman.go:205-222 | In one run, windows that include both ends hold at most the budgeted number of starts exactly when every start comes more than a window after the start a full budget before it. |
| `Supervisor.StartsApart` | internal/procman/procman.go:228-237 | Starts n apart lie at least the first n waits apart. |
| `Supervisor.ClosedWindowCanOverspend` | internal/procman/procman.go:205-233 | A run on that edge: one start a second allowed, a child that exits at once, and a second start when the first wait of a second ends. |
| `Supervisor.WaitsDouble` | internal/procman/procman.go:199-237 | The k-th wait is 2^k seconds, capped at thirty. |
| `Supervisor.StartsFollowWaits` | internal/procman/procman.go:228-237 | In every run the k-th start and the next lie at least the k-th wait apart. |

## Left out

- SQL text, the version and confidence columns, transactions other than as atomic steps, full-text search and chunks: tables are maps keyed by their conflict keys. Chunks of several repositories do not coexist in the original, which clears the whole table.
- Walking files, tracked-file exclusions, symbolic links and hashing of bytes: a worktree is a map from paths to texts.
- JSON: stored forms are assumed to parse back; intents are the fields their readers use.
- Hash functions: injectivity is assumed where a statement needs it; collisions are not modelled.
- Text: one character stands for one byte; blank trimming and header-name case folding are ASCII only.
- Wording: the texts of verdicts and their migration advice, of inspection details, of gate reasons and of errors.
- Floating point and log-gamma: the paired test is in exact arithmetic.
- `Impact.ImpactOf`: does not claim completeness when a row cap fires, because a cut level can be passed over; the extra result `capped`, which the original keeps to itself, says when the claim holds. When mark and cap agree depends on which rows the queries return; what a caller can count before the call is only sufficient.
- `Traverse.Traverse`: does not claim optimality when a cap fires, for the same reason; the condition under which none can fire is sufficient, not necessary, because it depends on which rows the query happens to return.
- `Index.AnalyzerOrderIrrelevant`: does not compare node columns, which are last write wins when two analyzers name the same node (`Index.UpsertedColumns`); the `worktree_id` column is always empty for analyzers, so the key is repository, kind and name.
- `Cache.Analyze`: the branch for an indexer without a cache is the plain analysis; no accepted path may be the version entry, which starts with a NUL and so is no file name.
- `GateRuns.WaitingGatesAreOnRecord`: at least one open approval per waiting gate, not exactly one: asking again while a gate waits journals again, and a ruling closes one of them. A decided row can return to waiting, after its deadline or by an id that other content shares.
- `Broker.Broker.Ask`: a failed read of the gate rows ends the call only when there is a candidate to look up; random bytes and clock readings in an id without a candidate are one parameter.
- `ModelSlot.GateComesBack`: a forwarded request and a health probe are assumed able to return; scheduling fairness is not modelled.
- Processes and signals: an owned process is alive or exited and delivers its exit once; a signal is no step of its own, since a process may exit at any moment. The pinned hash, the port probe and a failed start are one refusal.
- Providers serialised on an external endpoint: one gate and no owned process, an easy case of the slot.
- Framing: pending responses, notifications and diagnostics; a closed response channel reads as an empty result in the original, so no claim is made that a successful call had a response.
- Supervisor: readiness and liveness of children; a child that exits before it is ready leaves the loop waiting for a second exit value.
- Context: the wording of the tail, of headings and of the fence's preamble, and what an origin may say.
- Journal rows: timestamps, and the difference between NULL and empty text in columns no reader compares.
- Leases: nullable columns and the listing of leases.
- Command line, HTTP, dashboard, sandbox, egress proxy, model providers, evaluation runs, configuration: not modelled.
