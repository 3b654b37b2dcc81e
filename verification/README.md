# A verified model of JC Compute

JC Compute is an event-sourced runtime: an append-only store of causally linked events, a
reducer that folds them into a state, nodes that exchange histories, an LSM-tree storage
engine, a stake-weighted consensus and a few time-driven guards. This project models its
stateful core in Dafny and proves what the runtime relies on.

`dafny verify dfyconfig.toml` checks everything.

## How it is organised

| file | models |
|---|---|
| Orders.dfy, Graphs.dfy, Kahn.dfy | total orders and canonical sorting; adjacency maps and strict reachability; the state of Kahn's algorithm |
| CausalGraph.dfy | the causal graph: cycle-checked edges, breadth-first searches, topological sort |
| Events.dfy | events, the event store, the validator and its depth-first cycle search |
| Execution.dfy, ExecutionRuns.dfy | the execution engine, and what holds after every run of it |
| Convergence.dfy, DistributedNode.dfy, Ledger.dfy | when nodes that hold the same events agree; merging; the ledger example |
| Replay.dfy | the replay engine and its verifier |
| MergeSemantics.dfy | merging a batch by timestamp and identifier |
| AncestryIndex.dfy | the ancestry index with pruning and height order |
| KahnSort.dfy | the deterministic Python topological sort |
| Replica.dfy | the replicas of the fault-injection simulation |
| LsmModel.dfy, LsmFiles.dfy, Bloom.dfy, Merkle.dfy, SSTable.dfy, LsmStorage.dfy | the storage engine: values, files and recovery; the files while flushes and compactions run in turns; filter bits; Merkle proofs; segments; the engine with its background compactor |
| HotStuff.dfy | votes, quorum certificates and equivocation |
| NonceCache.dfy, RateLimiter.dfy | the replay-attack cache and the token buckets |

Objects whose methods update fields are classes, and each method's contract ties the new
state to a function of the old one; the theorems about whole runs are lemmas about those
functions. A thrown error is a result (`None`, `false`, `null` or an outcome).

## What the code does not promise as stated

Each of these is a property one would expect, with a concrete failing input or the exact
condition under which the code meets it.

- Reopening the store after a compaction that did not take every segment can bring back old
  values: the merged segment has the newest timestamp and is loaded last
  (`LsmModel.ReopenExactly`, `LsmModel.StaleRead`). What every run keeps is recovery while
  the files are in timestamp order: they leave it only where the metadata of such a merged
  segment is written, and are back in it after a compaction of everything
  (`LsmFiles.RecoversInOrder`, `LsmFiles.OrderLasts`, `LsmFiles.OrderComesBack`).
- A crash between the deletion of a segment's data and of its metadata makes the store
  impossible to open, and, where deletions succeed, nothing else does
  (`LsmFiles.OpensUnlessCaught`, `LsmModel.CrashWhileCompacting`).
- `has` is true of a deleted key for as long as its mark is the newest entry
  (`LsmStorage.LSMStorage.Has`, `LsmStorage.DeleteThenHas`), and right again for every key
  after a compaction of everything (`LsmStorage.LSMStorage.CompactSwap`).
- The current state is the fold of the history only as long as the reducer does the same with
  a raw event and its stored copy (`ExecutionRuns.SteadyExactly`,
  `ExecutionRuns.TimestampReadersDiverge`).
- Nodes with the same events agree exactly when the reducer has the diamond property; a
  deterministic reducer alone is not enough (`Convergence.ConvergenceExactly`,
  `Convergence.OverwritingDiverges`).
- A merge that stops at a throw keeps the event that threw, so a second merge goes on after it
  (`DistributedNodes.MergeGoesThrough`, `DistributedNodes.MergeIdempotent`).
- Merging a batch shows its order of arrival exactly when two different events share a
  timestamp and have identifiers that `localeCompare` ranks alike: equal ones, or such as the
  composed and the decomposed form of one accented letter
  (`MergeSemantics.MergeIgnoresArrivalExactly`, `MergeSemantics.TiedIdsShowArrival`).
- A node added under a pruned parent gets an entry without what was above the parent
  (`AncestryIndex.PrunedParentForgets`, `AncestryIndex.IndexExactly`); between surviving nodes
  no answer changes where heights grow (`AncestryIndex.SurvivorsExact`).
- A replay with `toIndex` -1 selects nothing (`Replay.SelectedOutside`).
- An edge from an identifier to itself is accepted (`CausalGraphs.RunsStayAcyclic`), and a
  repeated emit can leave stray edges (`ExecutionRuns.RepeatedEmitGraph`).
- The consensus comments promise tolerance of (n-1)/3 faulty nodes. With the floored quorum,
  two conflicting certificates are bound to expose more than that exactly when three divides
  the total stake, and nobody at all for a total of 4 (`HotStuff.ExposureExceedsTolerance`,
  `HotStuff.BoundIsMet`).
- A clock that goes back can make the replay cache accept a pair twice
  (`NonceCaches.BackwardClockReadmits`), and a bucket capacity of zero lets it grow without
  bound (`NonceCaches.BucketCountExactly`).
- The default waiting time of an eviction is safe only for limits that refill in it
  (`RateLimiters.EvictionInvisibleExactly`, `RateLimiters.RateKeptExactly`).

## Assumptions

- Hashes, signatures and serialisation are abstract functions. An injective pair hash is
  assumed only by `Merkle.ProofBinds` and `Merkle.RootBinds`, an injective event digest only by
  `Events.HashCovers` and `Replay.TamperingShows`. File encodings are faithful and a single file
  write is atomic; clearing the log is atomic.
- Segment identifiers are creation times and every new segment is created later than the
  ones before it.
- Clocks are parameters. Times and timestamps are integers, tokens are reals.
- Sets and maps of the source are read in insertion order; where the model iterates over
  one it does so in any order, so the results hold for all of them. Strings are ordered by
  code point. `localeCompare` is any total preorder: it ranks every two identifiers, and may
  rank different ones alike. JavaScript's default sort of the Merkle keys compares UTF-16
  code units, which differs only where a code point above U+FFFF meets one from U+E000 to
  U+FFFF.
- An event's capability, principal, reducer target, metadata and signature are part of its
  payload. A reducer is a function of state and event, or throws.
- The key `validator:view:phase` is modelled as a triple: neither a view nor a phase holds a
  colon, so the text form is one-to-one.
- Merged values are collected into a map before they are added to the merged segment; the
  source adds each as it finds it.

## Model

| member | source | states |
|---|---|---|
| LsmStorage.Serve | jc-compute/jc/src/storage/lsm-storage.ts:332-472 | any awaited sequence of put, delete and get, with the compactor taking any of its steps before, between and inside the calls, is answered as by one plain map; a crash after any durable write of the run leaves files that open unless a merged segment is half deleted, and that, wherever they are in timestamp order, recover to the map just before or just after the call in flight; where in the run they leave that order and where they are back in it; a memtable under its limit stays so |
| LsmStorage.CrashAndOpen | jc-compute/jc/src/storage/lsm-storage.ts:317-330 | crash after any durable write that left the files in timestamp order, and open: that fails exactly when a merged segment has lost its data and not its metadata, and otherwise the new engine reads like the map the client had built by then |
| LsmStorage.LSMStorage.Put | jc-compute/jc/src/storage/lsm-storage.ts:332-350 | the client's map gets the entry, and the entry is read next, whatever the compactor does meanwhile; the memtable is flushed if and only if the entry brings its size to the limit, so it stays below it: then memtable and log are empty, the newest segment holds what they held, and a compaction is begun exactly if none is running and as many segments as the threshold, and two, are left; otherwise no segment is added and no compaction begun; a crash before the first write finds files for the old map, and a crash after any write during the call, the compactor's included, finds files for the new one: they open unless a victim is half deleted, and recover wherever the files of that state are in timestamp order |
| LsmStorage.LSMStorage.Get | jc-compute/jc/src/storage/lsm-storage.ts:352-367 | memtable first, then segments newest first behind their filters; the value is the plain map's, absent and empty alike |
| LsmStorage.LSMStorage.Has | jc-compute/jc/src/storage/lsm-storage.ts:369-371 | `has` is wrong exactly for a deleted key whose mark is still its newest entry, in the memtable or in a segment; it never misses a live key |
| LsmStorage.DeleteThenHas | jc-compute/jc/src/storage/lsm-storage.ts:369-375 | deleted and asked for at once, `has` says the key is there |
| LsmStorage.LSMStorage.Delete | jc-compute/jc/src/storage/lsm-storage.ts:373-375 | afterwards the key reads as absent and its mark is left, with the flush, the compaction and the whole crash guarantee of a put |
| LsmStorage.LSMStorage.SetEntry | jc-compute/jc/src/storage/lsm-storage.ts:338-344 | the memtable size stays the sum of key and value lengths when an entry is replaced |
| LsmStorage.LSMStorage.Flush | jc-compute/jc/src/storage/lsm-storage.ts:378-412 | an empty memtable is left alone; otherwise memtable and log are empty afterwards, one segment with what they held stands behind the others, and a compaction is begun exactly if none is running and as many segments as the threshold, and two, are left; no read changes, with the compactor running or not, and every durable state it passes through holds the current map |
| LsmStorage.LSMStorage.Persist | jc-compute/jc/src/storage/lsm-storage.ts:241-258 | data, filter, metadata, in that order, with the compactor free to run after each; with none running the states are exactly those three |
| LsmStorage.LSMStorage.Commit | jc-compute/jc/src/storage/lsm-storage.ts:393-403 | the segment joins the list and memtable and log are cleared, however far a compaction has come |
| LsmStorage.LSMStorage.StartCompaction | jc-compute/jc/src/storage/lsm-storage.ts:414-451 | the guard, which segments are merged (the oldest, at most five) into what, under a newer identifier, and how many are left where they are |
| LsmStorage.NewestValues | jc-compute/jc/src/storage/lsm-storage.ts:429-449 | the merged entries are each key's newest value over the merged segments, deleted keys left out |
| LsmStorage.LSMStorage.CompactSwap | jc-compute/jc/src/storage/lsm-storage.ts:454-458 | the merged segment replaces exactly the segments it was made from, however many were flushed behind them, and no read changes; with nothing flushed behind them and an empty memtable `has` is then right for every key |
| LsmStorage.LSMStorage.CompactFile | jc-compute/jc/src/storage/lsm-storage.ts:452-466 | one file operation of the compaction, at any moment of a flush; no read changes and memory and files stay in step |
| LsmStorage.LSMStorage.Background | jc-compute/jc/src/storage/lsm-storage.ts:409-411 | any number of compaction steps, and a failure before the swap, keep memory and files in step, the client's map and the newest segment |
| LsmStorage.Open | jc-compute/jc/src/storage/lsm-storage.ts:317-330 | opening fails exactly when some metadata lacks its data or filter; otherwise memory and files are in step again and the engine reads like every map the files recover to |
| LsmStorage.LoadSegments | jc-compute/jc/src/storage/lsm-storage.ts:474-496 | segments come back in timestamp order with the contents on disk |
| LsmStorage.RecoverFromWAL | jc-compute/jc/src/storage/lsm-storage.ts:498-507 | the memtable is the log, and its size is again the sum of lengths |
| LsmModel.CompactOldest | jc-compute/jc/src/storage/lsm-storage.ts:421-458 | replacing an oldest prefix by its merged form, deleted keys dropped, changes no read over any later segments |
| LsmModel.FoundExactly | jc-compute/jc/src/storage/lsm-storage.ts:352-371 | something is found for a key exactly when the key is live, unless it was deleted and its mark is its newest entry |
| LsmFiles.OpensUnlessCaught | jc-compute/jc/src/storage/lsm-storage.ts:461-466 | in every state of flushes and compactions running in turns, the files open if and only if no victim has lost its data and not its metadata |
| LsmFiles.RecoversInOrder | jc-compute/jc/src/storage/lsm-storage.ts:474-507 | in every such state whose files are listed in timestamp order, they recover to what memory and log hold; caught half way through a deletion, they do without the one metadata file too many |
| LsmFiles.OrderLasts | jc-compute/jc/src/storage/lsm-storage.ts:423-458 | files in timestamp order stay so, write by write, up to the metadata of a merged segment whose compaction left older ones where they were |
| LsmFiles.OrderIsLost | jc-compute/jc/src/storage/lsm-storage.ts:423-458 | and there they are out of it |
| LsmFiles.OrderComesBack | jc-compute/jc/src/storage/lsm-storage.ts:454-466 | however they were ordered before, they are back in order once a compaction that left none has deleted its last victim's data |
| LsmFiles.FileStepKeeps | jc-compute/jc/src/storage/lsm-storage.ts:241-258 | each write and each deletion of a compaction, whatever a flush has written in between, keeps files and memory in step; it keeps timestamp order unless it lists a merged segment over older ones left where they were |
| LsmFiles.WriteStepKeeps | jc-compute/jc/src/storage/lsm-storage.ts:241-258 | so does each write of a flush, whatever a compaction has deleted in between, because data and filter are invisible until the metadata is there and the log still holds the entries |
| LsmFiles.FinishStepKeeps | jc-compute/jc/src/storage/lsm-storage.ts:393-403 | so does the end of a flush: the log may be cleared because the segment is listed |
| LsmFiles.SwapStepKeeps | jc-compute/jc/src/storage/lsm-storage.ts:454-458 | so does the swap: the files already show the list as it is after it, in the same order |
| LsmFiles.BeginStepKeeps | jc-compute/jc/src/storage/lsm-storage.ts:421-427 | so does the start of a compaction of any number of segments, which leaves the files and their order as they are |
| LsmModel.ReopenExactly | jc-compute/jc/src/storage/lsm-storage.ts:474-496 | with the merged segment listed and any number of its victims deleted, the files recover to what was read before, for all contents of files, log and segments, if and only if the compaction took every segment there was when it began |
| LsmModel.LoadsReloaded | jc-compute/jc/src/storage/lsm-storage.ts:474-496 | what a reopen loads from those files: the segments not deleted, then the merged one over them, because its timestamp is the newest |
| LsmModel.StaleRead | jc-compute/jc/src/storage/lsm-storage.ts:474-496 | for every number of segments and every smaller number taken, files from which an old value is read again |
| LsmModel.ReopenAfterCompaction | jc-compute/jc/src/storage/lsm-storage.ts:423-423 | with the engine's own count: if and only if at most five segments were there |
| LsmModel.CrashWhileCompacting | jc-compute/jc/src/storage/lsm-storage.ts:451-466 | after any number of the file operations of a compaction of any prefix, opening succeeds if and only if no victim is half deleted; before the merged metadata is written reads are as before, and if every segment was taken they are whenever the files open |
| Bloom.BloomFilter.Add | jc-compute/jc/src/storage/lsm-storage.ts:49-57 | at the level of bytes: exactly the key's bits become set, no bit is cleared |
| Bloom.BloomFilter.MightContain | jc-compute/jc/src/storage/lsm-storage.ts:59-70 | true exactly when every bit of the key is set |
| Bloom.AddCovers | jc-compute/jc/src/storage/lsm-storage.ts:49-70 | an added key is found ever after: adding covers the key and uncovers none |
| Bloom.AnswersExactly | jc-compute/jc/src/storage/lsm-storage.ts:44-70 | after any additions to a clear filter it answers for exactly those keys all of whose hash numbers meet one of an added key modulo the number of bits; so for every added key |
| Bloom.OrBit | jc-compute/jc/src/storage/lsm-storage.ts:55-55 | the or with a shifted one sets one bit and keeps the other seven |
| SSTables.SSTable.Add | jc-compute/jc/src/storage/lsm-storage.ts:205-220 | the segment's entries, filter and tree stay in step |
| SSTables.SSTable.Get | jc-compute/jc/src/storage/lsm-storage.ts:222-227 | the filter never changes a lookup's answer |
| SSTables.SSTable.Has | jc-compute/jc/src/storage/lsm-storage.ts:229-234 | the filter never changes a membership answer |
| SSTables.SSTable.Finalize | jc-compute/jc/src/storage/lsm-storage.ts:236-239 | the recorded root is that of the entries, in key order, 32 zero bytes for none |
| SSTables.SSTable.Load | jc-compute/jc/src/storage/lsm-storage.ts:260-280 | a segment read back has the saved entries and filter and a rebuilt tree |
| Merkle.MerkleTree.GetRoot | jc-compute/jc/src/storage/lsm-storage.ts:110-125 | cached or not, the root is a fresh build over the leaves in ascending order of their keys |
| Merkle.MerkleTree.GetProof | jc-compute/jc/src/storage/lsm-storage.ts:146-156 | nothing for an unknown key, otherwise the proof of its position in key order |
| Merkle.LeafList | jc-compute/jc/src/storage/lsm-storage.ts:116-124 | the leaves are listed by key, once each, ascending by the first code point in which two keys differ, a prefix first |
| Merkle.BuildTree | jc-compute/jc/src/storage/lsm-storage.ts:127-144 | the loop over pairs with an unpaired last node promoted computes the root function |
| Merkle.BuildProof | jc-compute/jc/src/storage/lsm-storage.ts:158-181 | the siblings on the way up, none where the node was promoted |
| Merkle.ComputeStateRoot | jc-compute/jc/src/consensus/hotstuff-bft.ts:452-476 | the loop over levels computes the same root as the recursion |
| Merkle.ProofReachesRoot | jc-compute/jc/src/storage/lsm-storage.ts:158-181 | for every nonempty list and index, climbing from the leaf with its proof gives the root |
| Merkle.ProofBinds | jc-compute/jc/src/storage/lsm-storage.ts:158-181 | with an injective pair hash, only that leaf and that proof reach the root from that position |
| Merkle.RootBinds | jc-compute/jc/src/storage/lsm-storage.ts:127-144 | with an injective pair hash, equal roots over equally many leaves force equal leaves |
| Merkle.CountMatters | jc-compute/jc/src/storage/lsm-storage.ts:127-144 | without the leaf count they do not: two leaves and their single pair hash share a root |
| CausalGraphs.CausalGraph.AddEdge | jc-compute/jc/src/core/causal-graph.ts:15-29 | throws exactly when the ends differ and the head already reaches the tail; the two maps stay mirrors |
| CausalGraphs.CausalGraph.IsAncestorOf | jc-compute/jc/src/core/causal-graph.ts:50-68 | the queue search answers strict reachability, and false for equal identifiers |
| CausalGraphs.CausalGraph.GetAncestors | jc-compute/jc/src/core/causal-graph.ts:154-173 | exactly the identifiers that reach the event, once each |
| CausalGraphs.CausalGraph.GetDescendants | jc-compute/jc/src/core/causal-graph.ts:178-197 | exactly the identifiers the event reaches, once each |
| CausalGraphs.CausalGraph.TopologicalSort | jc-compute/jc/src/core/causal-graph.ts:81-129 | succeeds exactly on acyclic graphs, with a linear extension of all nodes |
| CausalGraphs.CausalGraph.HasCycle | jc-compute/jc/src/core/causal-graph.ts:134-141 | true exactly when some node reaches itself |
| CausalGraphs.RunsStayAcyclic | jc-compute/jc/src/core/causal-graph.ts:15-29 | a whole run of calls leaves an acyclic graph if and only if no call passes the same identifier twice |
| Events.EventStore.Append | jc-compute/jc/src/core/event.ts:8-21 | refuses a known identifier, otherwise the log grows by the event with timestamp and hash filled in |
| Events.EventStore.ReadAll | jc-compute/jc/src/core/event.ts:27-29 | the stored events in order of arrival |
| Events.EventStore.Read | jc-compute/jc/src/core/event.ts:23-25 | the stored event of that identifier, if any |
| Events.StoredExactly | jc-compute/jc/src/core/event.ts:13-17 | the stored copy is the event with the time of arrival where it had none and the hash of that where it had none, every other field as it was |
| Events.HashCovers | jc-compute/jc/src/core/event.ts:58-76 | with an injective digest two events have one hash exactly if they agree in every field but the hash |
| Events.GetParentIds | jc-compute/jc/src/core/event.ts:149-157 | an identifier is listed exactly if it is the non-empty `parentEventId`, in `parentEventIds` or in `causality`: once, and in the order of first mention in these fields |
| Events.Visit | jc-compute/jc/src/core/event.ts:159-179 | the recursive search with its two shared sets: what it answers, and what it leaves in them when it finds nothing |
| Events.HasCycles | jc-compute/jc/src/core/event.ts:159-179 | on any stored events, causally checked or not: terminates, and true exactly when following parents reaches a cycle |
| Execution.JCCompute.Emit | jc-compute/jc/src/core/execution.ts:34-78 | every branch, in order: refused without identifier or type, then exactly if one of the three reference fields names an event that is not there, and nothing changes; then edges one by one, append, reducer; after a throw of the reducer the event is in the history and the state as it was |
| Execution.JCCompute.LinkParents | jc-compute/jc/src/core/execution.ts:46-54 | edges go in until the first that would close a cycle, and stay; when none would, those that come in lead from the two parent fields to the event, and `causality` adds none |
| Execution.JCCompute.Replay | jc-compute/jc/src/core/execution.ts:111-131 | the strict fold over the history up to the first event of that name |
| Execution.JCCompute.Verify | jc-compute/jc/src/core/execution.ts:136-143 | true exactly when the full replay equals the current state |
| Execution.JCCompute.Reset | jc-compute/jc/src/core/execution.ts:183-188 | state, store and graph as new |
| Execution.JCCompute.Import | jc-compute/jc/src/core/execution.ts:208-220 | reset, emit each event, stop at the first error, then compare states |
| ExecutionRuns.RunInvariant | jc-compute/jc/src/core/execution.ts:34-220 | after every run of emit, merge, reset and import, failing calls included and whatever the reducer reads: distinct identifiers, parents first, graph nodes all in the history; and while no emit slips, the state is the fold of the history |
| ExecutionRuns.EmitKeepsFold | jc-compute/jc/src/core/execution.ts:57-78 | from a state that is the fold of the history, an emit leads to one if and only if the store refuses the event or the reducer leads to the same state from the raw event and its stored copy |
| ExecutionRuns.SteadyExactly | jc-compute/jc/src/core/execution.ts:34-220 | a run keeps the state equal to the fold after every single emit, inside merges and imports too, if and only if that holds of each of its emits |
| ExecutionRuns.FilledRunsAreSteady | jc-compute/jc/src/core/event.ts:13-17 | events that arrive with timestamp and hash filled in never break it, whatever the reducer reads |
| ExecutionRuns.TimelessRunsAreSteady | jc-compute/jc/src/core/execution.ts:69-69 | nor does any event for a reducer that reads neither field |
| ExecutionRuns.VerifyExactly | jc-compute/jc/src/core/execution.ts:136-143 | `verify()` holds after any run if and only if no event of the history makes the reducer throw and the state is the fold; after a run without slips, if and only if none makes it throw |
| ExecutionRuns.TimestampReadersDiverge | jc-compute/jc/src/core/execution.ts:69-69 | a reducer that reads the timestamp the store fills in: one emit, and replay disagrees |
| ExecutionRuns.FreshEmitKeepsGraph | jc-compute/jc/src/core/execution.ts:46-57 | an emit under a new identifier never closes a cycle and keeps the graph equal to the history's parent links |
| ExecutionRuns.RepeatedEmitGraph | jc-compute/jc/src/core/execution.ts:46-57 | a repeated identifier: refused, and the graph still mirrors the history if and only if the first parent it does not record, if any, is a descendant |
| ExecutionRuns.FreshRunsMirrorHistory | jc-compute/jc/src/core/execution.ts:34-220 | over runs that repeat no identifier, for every reducer, the graph is the history's parent links, every causal path leads forward in the history, and there is no cycle |
| ExecutionRuns.ImportRestoresExport | jc-compute/jc/src/core/execution.ts:193-220 | importing a run's own export succeeds if and only if the exporting engine verifies; then history, state and an exact graph are restored |
| DistributedNodes.DistributedNode.Merge | jc-compute/jc/src/distributed/consensus.ts:28-36 | known events skipped, the rest emitted in order, the count of those; when it goes through every event is known afterwards, and otherwise it stops at the first new event that fails, with what that one leaves behind |
| DistributedNodes.MergeGoesThrough | jc-compute/jc/src/distributed/consensus.ts:28-36 | merging any well-formed history, for every reducer: the local history stays a prefix, the missing events follow, graph and state keep their meaning; it goes through if and only if the reducer takes every missing event in turn, and otherwise ends with the first it does not take |
| DistributedNodes.MergeIdempotent | jc-compute/jc/src/distributed/consensus.ts:28-36 | a second merge of the same history changes nothing and applies nothing if and only if the first went through or stopped at the last missing event |
| DistributedNodes.MutualMergeConverges | jc-compute/jc/src/distributed/consensus.ts:28-46 | two nodes from any runs whose merges of each other go through end in the same state, whether the second merges the first's history from before or from after its merge: for every reducer that converges at all where an identifier names one stored copy, and for those that read no timestamp or hash where it names one event up to those fields |
| DistributedNodes.DistributedNode.VerifyWith | jc-compute/jc/src/distributed/consensus.ts:38-46 | both replays hold; the states are equal as values; the one error otherwise |
| Convergence.ConvergenceExactly | jc-compute/jc/src/distributed/consensus.ts:28-36 | every two causal histories of the same well-formed events give the same state if and only if the reducer commutes on every two events that are both ready to come next |
| Convergence.OverwritingDiverges | jc-compute/jc/src/distributed/consensus.ts:28-36 | a deterministic reducer that keeps the last value: the same two unrelated events in two orders give two states |
| Convergence.CommutingConverges | jc-compute/jc/src/distributed/consensus.ts:28-36 | commuting on events that do not refer to each other is enough |
| Convergence.SameEventsSameState | jc-compute/jc/src/core/execution.ts:34-78 | any two engines that hold the same stored events are in the same state for every reducer that converges; up to filled-in fields, for every such reducer that reads none of them |
| Ledger.ReduceCommutes | jc-compute/jc/examples/distributed-ledger/reducer.ts:12-24 | any two ledger events commute |
| Ledger.LedgerNodesConverge | jc-compute/jc/examples/distributed-ledger/reducer.ts:12-24 | ledger nodes, after any runs with merges, merge each other without a throw and end with equal balances, in both orders of merging |
| Ledger.BalanceIsCreditsLessDebits | jc-compute/jc/examples/distributed-ledger/reducer.ts:12-24 | after any run, merges, imports and failed calls included, an account's balance is the sum of its credits in the history less the sum of its debits |
| MergeSemantics.Merge | jc-compute/jc/src/distributed/merge-semantics.ts:13-42 | a throw is a conflict and leaves the state; applied plus conflicts is the batch size |
| MergeSemantics.OrderExactly | jc-compute/jc/src/distributed/merge-semantics.ts:4-11 | the order taken: the events of the batch, timestamps not decreasing, a missing one read as 0, identifiers not decreasing at one timestamp, and events the comparison does not tell apart as they arrived |
| MergeSemantics.TakenInTurn | jc-compute/jc/src/distributed/merge-semantics.ts:22-34 | each event works on the state the ones before it left; the conflicts are exactly the events whose reducer threw, with what it threw |
| MergeSemantics.MergeIgnoresArrival | jc-compute/jc/src/distributed/merge-semantics.ts:4-42 | a permuted batch whose events that rank alike are equal gives the same order, state, count and conflicts, for throwing and non-commuting reducers too, and for any comparison of identifiers |
| MergeSemantics.MergeIgnoresArrivalExactly | jc-compute/jc/src/distributed/merge-semantics.ts:4-11 | arrival never shows, in the order or in what a reducer makes of it, if and only if any two events of the batch that share a timestamp and whose identifiers the comparison ranks alike are equal |
| MergeSemantics.TiedIdsShowArrival | jc-compute/jc/src/distributed/merge-semantics.ts:5-10 | two events of one timestamp with identifiers that rank alike, equal or not: arrival order shows |
| MergeSemantics.OrderRespectsCausality | jc-compute/jc/src/distributed/merge-semantics.ts:4-11 | when references go to earlier timestamps, the order is a linear extension of causality |
| Replay.ReplayEngine.SelectEvents | jc-compute/jc/src/replay/replay-engine.ts:41-57 | the stretch chosen by index or identifier, negative indexes counting from the end |
| Replay.SelectedStretch | jc-compute/jc/src/replay/replay-engine.ts:41-57 | two identifiers or two positions select what lies between them, both ends included, and nothing when the wrong way round; an identifier that is there wins over an index |
| Replay.SelectedOutside | jc-compute/jc/src/replay/replay-engine.ts:41-57 | no bounds select everything, a start past the end nothing, a negative start the last so many, and an end of -1 nothing at all |
| Replay.ReplayEngine.Replay | jc-compute/jc/src/replay/replay-engine.ts:14-35 | the strict fold over the stretch, its length, its last identifier and what the verifier finds |
| Replay.ReplayEngine.ReplayTo | jc-compute/jc/src/replay/replay-engine.ts:37-39 | the state the execution engine's own replay gives for that identifier, and the report on that prefix |
| Replay.SelectionsAgree | jc-compute/jc/src/replay/replay-engine.ts:41-57 | both replays walk the same prefix for every identifier, absent, repeated or empty |
| Replay.VerifyEvents | jc-compute/jc/src/replay/verification.ts:5-35 | the first hash mismatch if there is one, as the only error; otherwise the errors are exactly the ill-formed events and the missing or future parents, and valid means none |
| Replay.ReplayFindsParents | jc-compute/jc/src/replay/verification.ts:25-31 | the report on any run's history: up to any event it is valid exactly when the hashes match, so no parent is ever missing; from position k on, the complaints are exactly the references that lead before k |
| Replay.StoredPassesExactly | jc-compute/jc/src/replay/verification.ts:16-23 | a stored copy passes the hash check exactly if the event came without a hash, with an empty one or with that of its filled-in copy |
| Replay.HonestRunsMatch | jc-compute/jc/src/replay/verification.ts:5-35 | over every run into which no wrong hash was brought, merges and imports included, the verifier finds the history valid |
| Replay.TamperingShows | jc-compute/jc/src/replay/verification.ts:16-23 | with an injective digest, an event of such a history that is changed in any field under its old hash is named by the verifier as the mismatch |
| AncestryIndex.OptimizedCausalDAG.AddNode | jc-compute/jc/src/dag/optimized-causal-dag.ts:12-29 | the node goes in; its entry is its parents and what their entries list, and no other entry changes |
| AncestryIndex.OptimizedCausalDAG.IsAncestor | jc-compute/jc/src/dag/optimized-causal-dag.ts:31-33 | a look-up, and the answer of a search over the edges for every surviving child where the index is exact |
| AncestryIndex.OptimizedCausalDAG.PruneBelowHeight | jc-compute/jc/src/dag/optimized-causal-dag.ts:39-46 | exactly the nodes below the height go, with their entries |
| AncestryIndex.OptimizedCausalDAG.TopologicalAcceleration | jc-compute/jc/src/dag/optimized-causal-dag.ts:48-51 | all nodes, lowest first |
| AncestryIndex.AddKeepsExact | jc-compute/jc/src/dag/optimized-causal-dag.ts:12-33 | adding under a new identifier, to parents that are there or were pruned, keeps the index equal to a search if and only if nothing above a pruned parent is forgotten and every node that already lists the new one lists all it inherits |
| AncestryIndex.RunIsExact | jc-compute/jc/src/dag/optimized-causal-dag.ts:12-46 | over every parents-first run, prunes included, whose parents stay until their children are added, every surviving node's entry is what a search over all edges finds, pruned ancestors included |
| AncestryIndex.IndexExactly | jc-compute/jc/src/dag/optimized-causal-dag.ts:12-46 | over every run that adds each node once, in any order and with any prunes, every surviving node's entry is exactly what a search finds that goes on only from parents that had an entry when their child was added |
| AncestryIndex.SurvivorsExact | jc-compute/jc/src/dag/optimized-causal-dag.ts:31-46 | over every parents-first run with growing heights, children of pruned parents included, the index answers every question between two surviving nodes as a search over all edges does |
| AncestryIndex.PrunedParentForgets | jc-compute/jc/src/dag/optimized-causal-dag.ts:12-46 | a child added under a pruned parent: the index misses the grandparent |
| AncestryIndex.ChildFirstMisses | jc-compute/jc/src/dag/optimized-causal-dag.ts:12-33 | a child added before its parent: the index misses the grandparent |
| AncestryIndex.HeightsOrderAncestors | jc-compute/jc/src/dag/optimized-causal-dag.ts:39-46 | after any parents-first run with growing heights, earlier prunes and children of pruned parents included, one more prune removes an ancestor-closed set and leaves every answer between surviving nodes as it was, and right |
| AncestryIndex.PrunedIsAncestorClosed | jc-compute/jc/src/dag/optimized-causal-dag.ts:39-46 | what all the prunes of such a run have removed is closed under ancestors, however nodes were added in between, under pruned parents too |
| AncestryIndex.HeightOrderIsTopological | jc-compute/jc/src/dag/optimized-causal-dag.ts:48-51 | after any such run the height order puts every ancestor still there first |
| AncestryIndex.IndexMatchesSearch | jc-compute/jc/src/dag/optimized-causal-dag.ts:31-33 | after any parents-first run with prunes whose parents stay until their children are added, the index and the causal graph's search agree on the same edges for every surviving child, equal identifiers included |
| KahnSort.TopologicalSort | verification/verify_concurrency_ordering.py:37-74 | succeeds exactly when identifiers are distinct, parents known and the relation acyclic; then the canonical order, each event once, parents first, ties by identifier: sources first, in ascending order, and then, parent by parent in the order of the output, the children that waited for it last, ascending too; an unknown parent is reported exactly when there is one, and it is the first in order of arrival |
| Orders.StrLeExactly | verification/verify_concurrency_ordering.py:54-69 | the order of identifiers: a prefix first, and otherwise by the first code point that differs |
| KahnSort.CanonicalIgnoresArrival | verification/verify_concurrency_ordering.py:54-69 | the canonical order is the same for every permutation of the batch |
| KahnSort.SortIgnoresArrival | verification/verify_concurrency_ordering.py:37-74 | permuted batches are accepted or refused alike, with the same kind of error, and give the very same list of events |
| KahnSort.Build | verification/verify_concurrency_ordering.py:47-52 | the counts and child lists describe the arcs of the batch |
| KahnSort.Release | verification/verify_concurrency_ordering.py:64-68 | one decrement per list entry, each child that reaches zero taken once |
| Replicas.Replica.Receive | chaos_testing/fault_injection_sim.py:53-67 | accepted exactly if the identifier is new and the hash, where it is checked and there is one, is right; then the log grows by the event, and a refused event leaves the log alone and is noted when it was new |
| Replicas.Replica.Merge | chaos_testing/fault_injection_sim.py:69-74 | receives the remote log event by event and counts what was new; the log only grows, by sound events of the remote log that were not seen |
| Replicas.Replica.State | chaos_testing/fault_injection_sim.py:76-77 | the sum of the log |
| Replicas.Replica.RestoreFromSnapshot | chaos_testing/fault_injection_sim.py:83-86 | the log is filtered by the snapshot's identifiers, which become the seen set as they are |
| Replicas.SameIdsSameState | chaos_testing/fault_injection_sim.py:53-77 | under any schedule among any number of replicas logs stay duplicate-free and equal identifier sets mean equal states |
| Replicas.MergeSeen | chaos_testing/fault_injection_sim.py:53-74 | a merge brings in exactly the identifiers of sound events |
| Replicas.MutualMergeAgrees | chaos_testing/fault_injection_sim.py:69-77 | two replicas that merge each other hold the union and have the same state |
| Replicas.RestoreExactly | chaos_testing/fault_injection_sim.py:83-86 | a restored replica's seen set matches its log, without duplicates, if and only if the log it came from holds each identifier of the snapshot exactly once |
| Replicas.RejoinReachesOrigin | chaos_testing/fault_injection_sim.py:69-86 | snapshot, restore, merge reaches the origin's state when the origin holds the snapshot's events |
| Replicas.UncoveredSnapshotStaysBehind | chaos_testing/fault_injection_sim.py:83-86 | a log that misses part of the snapshot: no merge brings it back |
| HotStuff.HotStuffConsensus.constructor | jc-compute/jc/src/consensus/hotstuff-bft.ts:99-113 | with distinct validators the total is the stake of the table |
| HotStuff.Configure | jc-compute/jc/src/consensus/hotstuff-bft.ts:99-113 | refused exactly when there are fewer validators than the minimum |
| HotStuff.HotStuffConsensus.OnVote | jc-compute/jc/src/consensus/hotstuff-bft.ts:220-237 | over any run of votes since the last commit: a verified vote of a known validator yields a certificate exactly when the validators whose last verified vote on its block is of its phase carry the quorum, and those are its signers |
| HotStuff.HotStuffConsensus.CheckQuorum | jc-compute/jc/src/consensus/hotstuff-bft.ts:242-276 | a certificate exactly at the quorum, over distinct known validators, with their stake |
| HotStuff.HotStuffConsensus.DetectEquivocation | jc-compute/jc/src/consensus/hotstuff-bft.ts:529-547 | a validator is flagged exactly when two of its votes share view and phase and differ in block; it is listed once for every vote of its for a further block, in the order of the votes |
| HotStuff.ConflictingCertificatesExpose | jc-compute/jc/src/consensus/hotstuff-bft.ts:242-276 | two certificates of one phase for different blocks, votes of one view: exactly the common signers are flagged, with at least 2*floor(2T/3) - T stake |
| HotStuff.BoundIsMet | jc-compute/jc/src/consensus/hotstuff-bft.ts:107-108 | for every number of unit validators two such certificates exist whose flagged stake is exactly that bound |
| HotStuff.ExposureExceedsTolerance | jc-compute/jc/src/consensus/hotstuff-bft.ts:107-108 | every two conflicting certificates over a total stake T expose more than (T-1)/3 if and only if three divides T, and expose anybody at all if and only if T is not 0, 1, 2 or 4 |
| NonceCaches.NonceCache.CheckAndRegister | jc-compute/jc/src/security/adversarial-resilience.ts:35-46 | when a pair is accepted, and what a refused or accepted call leaves behind |
| NonceCaches.NonceCache.EvictExpired | jc-compute/jc/src/security/adversarial-resilience.ts:48-53 | exactly the buckets below the window's lower end go |
| NonceCaches.AcceptedOnce | jc-compute/jc/src/security/adversarial-resilience.ts:35-53 | with a clock that never goes back, an identifier is accepted at most once per time bucket over the whole run |
| NonceCaches.AcceptedExactly | jc-compute/jc/src/security/adversarial-resilience.ts:35-53 | over every run whose clock never goes back, a call is accepted exactly if its timestamp is inside the window, no earlier call had its identifier accepted into the same bucket, and fewer than the maximum were accepted into it |
| NonceCaches.BackwardClockReadmits | jc-compute/jc/src/security/adversarial-resilience.ts:48-53 | the exact clocks under which some calls have a pair accepted twice: a reading between two others so late that an eviction drops the bucket both can use; no clock that never goes back is one |
| NonceCaches.BucketCount | jc-compute/jc/src/security/adversarial-resilience.ts:35-53 | never more than floor(2*window/bucket size) + 2 buckets when a bucket may hold at least one |
| NonceCaches.ZeroCapacityGrows | jc-compute/jc/src/security/adversarial-resilience.ts:39-45 | with capacity zero nothing is evicted and buckets grow without bound |
| NonceCaches.BucketCountExactly | jc-compute/jc/src/security/adversarial-resilience.ts:35-53 | the bound holds for every run if and only if a bucket may hold at least one |
| RateLimiters.RateLimiter.Consume | jc-compute/jc/src/security/adversarial-resilience.ts:155-167 | granted exactly when enough is available after refilling; a refused call changes nothing that is available now or later, a granted one takes its tokens, and no other principal notices |
| RateLimiters.RateLimiter.Evict | jc-compute/jc/src/security/adversarial-resilience.ts:169-174 | exactly the buckets idle for longer go |
| RateLimiters.GrantedWithinRate | jc-compute/jc/src/security/adversarial-resilience.ts:155-174 | over any stretch of calls one principal is granted at most the capacity plus the refill of the time that passed, evictions that wait for a refill included |
| RateLimiters.GrantedExactly | jc-compute/jc/src/security/adversarial-resilience.ts:155-174 | in a run whose evictions wait for a refill, a call is granted if and only if it asks for no more than the capacity and every stretch of the run that ends with it stays within the capacity plus the refill of the time that passed |
| RateLimiters.RateKeptExactly | jc-compute/jc/src/security/adversarial-resilience.ts:155-174 | evictions that wait at least a given time keep every stretch of every run within that rate if and only if that time plus one millisecond refills an empty bucket |
| RateLimiters.EvictionInvisibleExactly | jc-compute/jc/src/security/adversarial-resilience.ts:169-174 | evictions that wait at least a given time never change an answer if and only if that time plus one millisecond refills an empty bucket |

## Left out

- LsmStorage.LSMStorage.Flush: a failing write inside `flush`, which rejects the put that caused it, is not modelled; a crash at the same point is.
- LsmStorage.LSMStorage.Put: overlapping calls that are not awaited are not modelled; such puts can be lost between the end of `persist` and the clearing of the log.
- SSTables.SSTable.Load: partially written or corrupted files are not modelled.
- SSTables.SSTable.Add: the metadata's key range, entry count and byte size are not modelled.
- HotStuff.HotStuffConsensus.OnVote: what follows a certificate (locks, the node's own next-phase vote, committing a block) is not modelled beyond the clearing of pending votes, since agreement does not follow from this code.
- HotStuff.HotStuffConsensus.constructor: negative stakes are not modelled.
- HotStuff.ConflictingCertificatesExpose: votes of different views are outside its claim, because the engine files them together and the detector keeps views apart.
- Replay.VerifyEvents: the expected and actual hash of a mismatch and the wording of errors are not modelled; which error it is, is.
- Replicas.Replica.Receive: the reason text of a rejection is not modelled.
- Execution.JCCompute.Verify: states are compared as values, not as JSON text, which also depends on key order; so they are in `Import` and `VerifyWith`.
- LsmStorage.LSMStorage.CompactFile: a deletion that fails, which the source ignores, is not modelled.
- Execution.JCCompute.Emit: subscribers are not modelled; they cannot change the state.
- Storage statistics, the combined Merkle root over segments, event emission and hexadecimal encodings: presentation.
- Byzantine validators' timers, leaders, proposals and signatures: I/O or out of reach of what the code decides.
- Synchronisation messages, which append to a store without causal checks: excluded from engine runs.
- Frontier compression, payload sanitising, the per-tick equivocation record and the timestamp policy: easy members.
- Capabilities, snapshots, fault tolerance, networking, the collaborative editor and the demos: I/O, or nothing beyond what is proved here.
