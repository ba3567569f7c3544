# StoneleafDB in Dafny

StoneleafDB is a replicated, transactional key-value store: a B+ tree over a page cache, a write-ahead log with
ARIES-style restart, strict two-phase key locks with deadlock detection, and a Raft layer that feeds committed entries
into the store. This project models those parts and proves what they are for. Most components come in two layers: functions
and state machines over values, about which the theorems are stated for every input, every run or every crash; and
classes and methods in the form of the C++ code, with its loops and updates in place, proved equal to those functions.

| component | files | main theorems |
|---|---|---|
| Raft log, election, replication | RaftTypes, RaftLog, RaftNode, RaftCluster, RaftSafety, RaftLaws, RaftServer | ElectionSafety, LogMatching, AppendDelivers, AcknowledgedStays, VoteLaw, CommitIsConfirmed |
| Locks and wait-for graph | WaitForGraph, LockTable, LockSafety, LockLaws, LockManager | AcceptsExactly, DeadlockFree, SomeoneRuns, LockSafe, NoOvertaking, AnswerLaw, EndsWithoutTrace |
| Write-ahead log, transactions, restart | Wal, WalInvariant, Compensations, Recovery, Transactions, TransactionManager, Durability, WalHeaders | CrashAtomicity, RecoveryIsRestartable, EveryCrashIsAtomic, EveryRollBackIsExact, EveryRestartIsExact, AcknowledgedIsDurable |
| Raft application | RaftApply, RaftApplier | AppliedState, CrashKeepsWholeEntries, AcknowledgedSurvives |
| B+ tree, cursor, key order | Sequences, Walks, BTreeModel, BTreeRemove, BTreeExact, BTreeInsert, BTreeSizes, BTreeFull, BTreeOverflow, BTreePages, BTree, BTreeCursor, KeyOrder | RemoveRefines, InsertRefines, SmallRunsKeepTheMap, ScanRange, ScanPrefix, EmbedOrder |
| Encodings | ByteStrings, Crc32c, Castagnoli, WalRecordCodec, SlottedPage, PageFit | ChecksumIsRemainder, OneByteChanges, DecodeInvertsEncode, CorruptionRejected, LeafRoundTrip, ClearExactlyWhen |
| Segments, pager, page cache | Segment, Freelist, PageCache, PageCacheLaws | Recover, FileIsThePeak, WalBeforeData, ReadsLatest, LoadLaw |

`dafny verify dfyconfig.toml` checks the whole project.

## Where the code falls short of its promise

Each of these is kept as the code has it, shown on a concrete input, and delimited by an if-and-only-if over all inputs:
a condition on the state before the call.

- The replication handler truncates before it checks that the new entries are dense, so a refused request can destroy
  entries: `RaftNodes.IllFormedBatchLosesEntries`, `RaftNodes.LosesEntriesExactlyWhen`. Requests cut from a leader's log
  are always dense, so in every run of the protocol this does not happen (`RaftSafety.AppendDelivers`).
- A shared-lock call by a transaction that is no longer active erases the whole lock entry, other readers included:
  `LockTables.InactiveReaderErasesOwners`, `LockTables.LosesOwnersExactlyWhen`. The run theorems are about clients that
  call only while they are active.
- Splitting an internal page aborts the process, because a fresh internal page already has a child and refuses a leftmost
  one: `SlottedPages.NewPageHasChild`, `BTreeFull.FullParentStops`. Small entries do not help: every page of that tree
  fits (`BTreeOverflow.FullParentEnds`).
- The tree counts entries, not bytes, and writing a page does not check that its cells fit. A leaf with 193 entries of 19
  bytes each takes one more (`BTreeOverflow.InsertOverflows`); the page is then written with its last cell over its own
  directory and cannot be decoded (`SlottedPages.OverfullLeafIsLost`). Merging two leaves overflows in the same way
  (`BTreeOverflow.RemoveOverflows`).
- `BTreeSizes.InsertRefines` and `BTreeSizes.RemoveRefines` put both together: they say exactly when an insertion or a
  removal writes only pages that fit, and that it then is the map update or deletion, except exactly where an insertion
  ends the process. `BTreeSizes.SmallRunsKeepTheMap` gives a sufficient bound for whole runs: cells of at most 18 bytes
  never overflow any page.
- A follower does not check its commit index before it cuts its log, so a batch that brings something new and ends before
  it leaves the index past the log: `RaftLaws.CommitOutrunsLog`, `RaftLaws.CommitStaysInLog`. A leader that has every
  committed entry sends no such batch, but the source has no leader side yet that would make sure of it.
- Freeing a page twice is not noticed and makes the allocator hand it out twice: `Freelists.DoubleFreeSharesAPage`,
  `Freelists.FreeKeepsExactlyWhen`.
- Page writes as such: every cell write stays inside the page, and clear of header and directory, under the exact
  conditions of `SlottedPages.InsideExactlyWhen` and `SlottedPages.ClearExactlyWhen`. What fits is always
  read back (`SlottedPages.LeafRoundTrip`); what does not may be lost (`SlottedPages.OverfullLeafIsLost`) or survive because
  the overwritten byte happens to be equal (`SlottedPages.UnfitMayBeRead`), so no test of sizes decides that.

Where the comments and the code disagree the code is followed: `src/Recovery.cpp` calls its undo pass unfinished although
it is complete, and the cache is called least-recently-used although its victim search starts from the page that was unpinned
last.

## Reading the model

- Terms, indexes, log sequence numbers and transaction numbers are unbounded; the source uses 64 bits. Sixteen-bit
  page offsets and the widths of encoded fields are modelled explicitly.
- Tree keys are real numbers. The tree only compares keys, and `KeyOrder.EmbedOrder` embeds the encoded keys, with the
  order of the source, into the reals. Lock keys are natural numbers, since they are only compared for equality.
- The size of a tree node is counted with the lengths of the encoded keys and values, given as a function of the key;
  `PageFit` proves this equal to the size of the encoded page.
- A state machine is total: a step that is not enabled changes nothing, so "every run" is every sequence of steps.
  Messages stay in the network forever, which covers loss, delay, duplication and reordering.
- The tree's pages are allocated from an abstract set of free pages; the chain of free pages has its own model in
  `Freelist`. Physical page images of a logged action are inputs to the transaction model.
- Commit and abort release their locks in the same step that writes the last record. `release_locks` clears the record
  list at the end of its loop; `LockManagers.LockManager.ReleaseLocks` proves this equal to releasing one lock at a time.

## Model

| member | source | states |
|---|---|---|
| `RaftLogs.FlattenAt` | src/Raft/RaftLog.cpp:214-226 | entry j of segment i is the flat entry with 1-based index base + j, so reading through segments is reading the flat log |
| `RaftLogs.SomeSegmentHolds` | src/Raft/RaftLog.cpp:214-226 | the segment ranges partition 1 .. next - 1: every held index lies in some segment |
| `RaftLogs.FlatDense` | src/Raft/RaftLog.cpp:62-139 | contiguous segments flatten to a dense log that starts at index 1 |
| `RaftLogs.CutFlatten` | src/Raft/RaftLog.cpp:268-322 | cutting the target segment and dropping the later ones keeps exactly the indexes below the cut |
| `RaftLogs.RolloverSound` | src/Raft/RaftLog.cpp:352-367 | opening a new last segment keeps segments contiguous, every durable index in synced bytes, and the flat log unchanged |
| `RaftLogs.ExtendSound` | src/Raft/RaftLog.cpp:160-183 | extending the last segment by one entry appends that entry to the flat log and leaves the synced part alone |
| `RaftLogs.RaftLog.constructor` | src/Raft/RaftLog.cpp:50-55 | a new log is the empty sequence |
| `RaftLogs.RaftLog.AppendOne` | src/Raft/RaftLog.cpp:160-183 | the flat log grows by exactly the entry, in a new segment if and only if the last one is over a limit |
| `RaftLogs.RaftLog.Append` | src/Raft/RaftLog.cpp:160-183 | a leader append adds one entry with the next index; term 0 is refused and nothing changes |
| `RaftLogs.RaftLog.AppendFromLeader` | src/Raft/RaftLog.cpp:185-212 | accepted exactly when the batch continues the log densely; then the flat log is the old one followed by the batch, otherwise unchanged |
| `RaftLogs.RaftLog.IsDense` | src/Raft/RaftLog.cpp:185-212 | the loop decides density of the batch |
| `RaftLogs.RaftLog.Read` | src/Raft/RaftLog.cpp:214-226 | agrees with the flat sequence on every index, refuses every other |
| `RaftLogs.RaftLog.TermOf` | src/Raft/RaftLog.cpp:256-266 | agrees with the term in the flat sequence, index 0 included |
| `RaftLogs.RaftLog.ScanFrom` | src/Raft/RaftLog.cpp:228-244 | returns exactly the flat suffix; one past the end is allowed |
| `RaftLogs.RaftLog.TruncateSuffix` | src/Raft/RaftLog.cpp:268-322 | leaves exactly the flat prefix below the index, keeps the segments contiguous, lowers the durable index with it |
| `RaftLogs.RaftLog.FindCut` | src/Raft/RaftLog.cpp:268-322 | finds the segment that holds the cut |
| `RaftLogs.RaftLog.SyncThrough` | src/Raft/RaftLog.cpp:324-345 | makes at least the requested index durable, every durable index lies in synced bytes, and no entry changes |
| `RaftLogs.RaftLog.SyncSegments` | src/Raft/RaftLog.cpp:324-345 | the segment loop reaches the target or refuses it |
| `RaftNodes.FirstNewMeaning` | src/Raft/RaftServiceImpl.cpp:133-150 | the scan stops at the first index the log lacks or holds with another term, and everything before agrees in term |
| `RaftNodes.ReplicateSucceeds` | src/Raft/RaftServiceImpl.cpp:95-186 | a well-formed request that passes the consistency check never throws, leaves the merged log and returns only once the batch is durable |
| `RaftNodes.NewFits` | src/Raft/RaftLog.cpp:185-212 | the new part always continues the truncated log densely, so the append precondition holds |
| `RaftNodes.MergedMeaning` | src/Raft/RaftServiceImpl.cpp:95-186 | the merged log is dense and holds every sent term at its index |
| `RaftNodes.DuplicateTruncatesNothing` | src/Raft/RaftServiceImpl.cpp:95-186 | a request whose entries are already held changes no entry |
| `RaftNodes.IllFormedBatchLosesEntries` | src/Raft/RaftServiceImpl.cpp:133-159 | concrete request that destroys an entry and is then refused, because density is checked after truncation |
| `RaftNodes.LosesEntriesExactlyWhen` | src/Raft/RaftServiceImpl.cpp:133-159 | a truncating request is refused half way if and only if its new entries are not dense |
| `RaftSafety.MajoritiesMeet` | src/Raft/RaftElection.cpp:112-142 | two candidates with a majority of the ballots of one term are the same candidate |
| `RaftSafety.CampaignKeeps` | src/Raft/RaftElection.cpp:58-85 | a campaign step keeps the cluster invariant |
| `RaftSafety.CountKeeps` | src/Raft/RaftElection.cpp:112-142 | counting a reply, stale or duplicated ones included, keeps the cluster invariant |
| `RaftSafety.CrownKeeps` | src/Raft/RaftState.cpp:97-106 | a candidate with a majority may take office without breaking the invariant |
| `RaftSafety.VoteGranted` | src/Raft/RaftState.cpp:68-88 | granting a vote records one ballot per term, only for a candidate whose log ends in a later term or in the same term no earlier |
| `RaftSafety.CrashKeeps` | src/Raft/RaftState.cpp:12-43 | a crash and reload from hard state at any step keeps the invariant |
| `RaftSafety.CrashInAppendKeeps` | src/Raft/RaftServiceImpl.cpp:95-186 | a crash inside the replication handler, before or after the truncation takes effect, leaves a prefix of the old log under the new term or a prefix of what the handler was writing, and the invariant |
| `RaftSafety.GroundedAgree` | src/Raft/RaftServiceImpl.cpp:95-186 | two logs grounded in leader logs that share a term at an index agree up to it |
| `RaftSafety.AgreedPrefix` | src/Raft/RaftServiceImpl.cpp:95-186 | the part the handler keeps is the leader's own although only terms are compared |
| `RaftSafety.MergeGrounded` | src/Raft/RaftServiceImpl.cpp:95-186 | merging a leader slice gives a log that agrees with the leader up to the end of the slice |
| `RaftSafety.RunInv` | src/Raft/RaftServiceImpl.cpp:12-186 | the invariant holds in every state of every run with lost, duplicated, delayed, reordered messages and crashes |
| `RaftSafety.ElectionSafety` | src/Raft/RaftElection.cpp:58-142 | in every run at most one node ever wins a term, every leader has won, and each winner was elected by a majority each of whose logs, when it voted, ended in an earlier term than the log the winner campaigned and led with, or in the same term at an index not greater |
| `RaftSafety.LogMatching` | src/Raft/RaftServiceImpl.cpp:95-186 | in every run two logs with the same term at an index are identical up to it, operations included |
| `RaftSafety.AppendDelivers` | src/Raft/RaftServiceImpl.cpp:55-186 | in every run no AppendEntries ever sent throws; on success the follower holds the leader's slice up to the end of the batch, durably |
| `RaftSafety.AcknowledgedStays` | src/Raft/RaftServiceImpl.cpp:95-186 | in every run an acknowledged prefix stays durable and equal to that leader's log until the follower moves to a later term |
| `RaftLaws.VoteLaw` | src/Raft/RaftServiceImpl.cpp:12-53 | a current request from a peer is granted if and only if no other candidate holds the vote of that term and the candidate's last term and index are not before the voter's; the vote is persisted with the answer; everything else about the node is stated too |
| `RaftLaws.CampaignLaw` | src/Raft/RaftElection.cpp:58-100 | the next term and the own vote are persisted; a lone member leads at once |
| `RaftLaws.VoteReplyLaw` | src/Raft/RaftElection.cpp:100-142 | a later term deposes; a granted reply to the current campaign counts, and makes the candidate leader if and only if its votes and its own are more than half of the members |
| `RaftLaws.AppendLaw` | src/Raft/RaftServiceImpl.cpp:55-186 | a current request is followed, and succeeds if and only if the log holds the entry before the batch with the named term; then the log is the merged one, otherwise untouched |
| `RaftLaws.CommitLaw` | src/Raft/RaftServiceImpl.cpp:168-186 | the commit index moves only on success, never back, never past the batch nor past the leader's own, and on success reaches the nearer of the two |
| `RaftLaws.CommitStaysInLog` | src/Raft/RaftServiceImpl.cpp:122-186 | the commit index stays inside the log exactly unless a batch that brings something new ends before it |
| `RaftLaws.CommitOutrunsLog` | src/Raft/RaftServiceImpl.cpp:122-186 | a concrete follower whose commit index is past its log after such a batch |
| `RaftLaws.CommitIsConfirmed` | src/Raft/RaftServiceImpl.cpp:168-186 | in every run what a handler newly marks as committed is the sending leader's log up to that index, and durable |
| `RaftLaws.CommitNeverFalls` | src/Raft/RaftServiceImpl.cpp:168-186 | in every run the commit index never falls between two restarts |
| `RaftLaws.AppliedIsCommitted` | src/Raft/RaftState.cpp:12-43 | in every run no node has applied more than it knows to be committed |
| `RaftLaws.RestartRemembers` | src/Raft/RaftState.cpp:12-43 | in every run a crash costs neither term nor vote nor a durable entry; both watermarks are the recovered one and lie inside the log if and only if it does |
| `RaftLaws.LeaderStartsBlank` | src/Raft/RaftState.cpp:97-106 | in every run a leader has recorded no replicated entry for any peer and starts sending right after the log it was elected with |
| `RaftServers.HardStateStore.Persist` | src/Raft/RaftHardStateStore.cpp:123-153 | stores term and vote exactly when they do not move back; otherwise nothing changes |
| `RaftServers.RaftServer.constructor` | src/Raft/RaftState.cpp:12-43 | restart takes term and vote from the hard state and both watermarks from recovery |
| `RaftServers.RaftServer.AdvanceTermTo` | src/Raft/RaftState.cpp:44-66 | refused exactly when the term does not advance; otherwise term and vote are in the hard state before they are in memory |
| `RaftServers.RaftServer.FollowAs` | src/Raft/RaftState.cpp:108-118 | the new state equals the follower transition of the protocol model |
| `RaftServers.RaftServer.LeadFrom` | src/Raft/RaftState.cpp:97-106 | the new state equals the leader transition of the protocol model |
| `RaftServers.RaftServer.LastEntry` | src/Raft/RaftLog.cpp:246-254 | index and term of the last flat entry |
| `RaftServers.RaftServer.RequestVote` | src/Raft/RaftServiceImpl.cpp:12-53 | state and answer equal the vote handler of the protocol model |
| `RaftServers.RaftServer.Campaign` | src/Raft/RaftElection.cpp:50-100 | state and request equal the campaign step of the protocol model |
| `RaftServers.RaftServer.VoteReply` | src/Raft/RaftElection.cpp:112-142 | state equals the reply step of the protocol model; a majority makes the leader |
| `RaftServers.RaftServer.FindNew` | src/Raft/RaftServiceImpl.cpp:133-150 | the loop computes the first new offset |
| `RaftServers.RaftServer.MergeEntries` | src/Raft/RaftServiceImpl.cpp:133-159 | truncation and append leave exactly the merged log |
| `RaftServers.RaftServer.ReplicateEntries` | src/Raft/RaftServiceImpl.cpp:95-186 | equals the replication step of the protocol model, apart from syncing further up to the end of a segment |
| `RaftServers.RaftServer.AppendEntries` | src/Raft/RaftServiceImpl.cpp:55-186 | state and answer refine the AppendEntries handler of the protocol model |
| `WaitForGraphs.AcceptsExactly` | src/TransactionManager/WaitForGraph.cpp:57-96 | a batch of known transactions is accepted if and only if the graph stays acyclic with it |
| `WaitForGraphs.AcceptedStaysRanked` | src/TransactionManager/WaitForGraph.cpp:57-96 | an accepted batch leaves a ranking that falls along every edge |
| `WaitForGraphs.RejectedWouldCycle` | src/TransactionManager/WaitForGraph.cpp:57-96 | a rejected batch of known transactions would close a cycle |
| `WaitForGraphs.RankedIsAcyclic` | src/TransactionManager/WaitForGraph.cpp:57-96 | a ranked graph has no cycle |
| `WaitForGraphs.OperationsStayConsistent` | src/TransactionManager/WaitForGraph.cpp:12-122 | every operation keeps incoming the transpose of outgoing |
| `WaitForGraphs.ErasesAll` | src/TransactionManager/WaitForGraph.cpp:27-51 | the two indexes name exactly the entries that mention a transaction |
| `WaitForGraphs.WaitForGraph.AddNode` | src/TransactionManager/WaitForGraph.cpp:12-25 | the graph gains the node and no edge; a known node stays as it is |
| `WaitForGraphs.WaitForGraph.PathExists` | src/TransactionManager/WaitForGraph.cpp:124-151 | true if and only if a path exists |
| `WaitForGraphs.WaitForGraph.Search` | src/TransactionManager/WaitForGraph.cpp:124-151 | the breadth-first loop visits exactly the reachable transactions and terminates |
| `WaitForGraphs.WaitForGraph.AddEdges` | src/TransactionManager/WaitForGraph.cpp:57-96 | accepted exactly when the specification accepts; all edges or none |
| `WaitForGraphs.WaitForGraph.Remove` | src/TransactionManager/WaitForGraph.cpp:27-51 | removes the node and every edge in both indexes |
| `WaitForGraphs.WaitForGraph.RemoveOutgoing` | src/TransactionManager/WaitForGraph.cpp:108-122 | removes exactly the outgoing edges in both indexes |
| `LockTables.GrantsInOrder` | include/LockManager/LockState.h:20-61 | the granted waiters are a prefix of the queue and the rest starts with one that cannot be granted |
| `LockTables.SettleGrantsAll` | src/LockManager/LockManager.cpp:299-344 | settling a key grants its whole grantable prefix and touches no other key |
| `LockTables.InactiveReaderErasesOwners` | src/LockManager/LockManager.cpp:37-55 | concrete call by an inactive transaction that takes away another reader's lock |
| `LockTables.LosesOwnersExactlyWhen` | src/LockManager/LockManager.cpp:13-205 | a lock call takes a lock away from another transaction if and only if it is an inactive reader's immediate grant on a key with readers and an empty queue |
| `LockSafety.GrantBlockers` | include/LockManager/LockState.h:20-61 | granting the front gives nobody a new blocker |
| `LockSafety.ReleaseMeaning` | src/TransactionManager/TransactionManager.cpp:277-291 | the unlock in the release loop succeeds and hands the lock to the front of the queue |
| `LockSafety.RunInv` | src/LockManager/LockManager.cpp:13-344 | the invariant holds in every state of every run of begin, lock, release and end |
| `LockSafety.BlockersAreEdges` | src/LockManager/LockManager.cpp:57-90 | in every run the true blockers of every waiter, across all keys, are edges of the wait-for graph |
| `LockSafety.DeadlockFree` | src/LockManager/LockManager.cpp:160-195 | in every run no set of transactions is mutually stuck |
| `LockSafety.WaitsForSomeone` | src/LockManager/LockManager.cpp:299-344 | in every run every waiter has a live blocker: no grantable waiter is left behind |
| `LockSafety.SomeoneRuns` | src/LockManager/LockManager.cpp:160-195 | while anyone waits, some transaction that blocks a waiter is running |
| `LockSafety.LockSafe` | include/LockManager/LockState.h:20-61 | in every run an exclusive owner is the only owner and each owner's record list knows the lock |
| `LockSafety.ReleaseSucceeds` | src/TransactionManager/TransactionManager.cpp:277-291 | in every run a release never fails |
| `LockSafety.NoOvertaking` | src/LockManager/LockManager.cpp:13-205 | in every step ownership is gained from the front of the queue in order, or on an empty queue |
| `LockLaws.AnswerLaw` | src/LockManager/LockManager.cpp:13-205 | in every run, for an active caller that does not wait: a lock it holds is reported; a request that conflicts with nobody is granted; any other joins the end of the queue, or is refused if its wait would close a cycle; the whole new table is stated |
| `LockLaws.StatusMeaning` | src/LockManager/LockManager.cpp:13-205 | each status is given if and only if it is true: granted, already held, waiting last in the queue; other answers change nothing and not-found is never given |
| `LockLaws.TableIsTight` | src/LockManager/LockManager.cpp:207-290 | in every run the table has entries only for keys that somebody owns or waits for |
| `LockLaws.EndsWithoutTrace` | src/TransactionManager/TransactionManager.cpp:277-312 | in every run a transaction that does not wait can finish, release its locks one by one and end, and then owns nothing, waits for nothing and is no node of the graph |
| `LockManagers.BatchIsSettle` | src/LockManager/LockManager.cpp:299-344 | popping the whole grantable prefix first and recording it afterwards equals granting one waiter at a time |
| `LockManagers.ReleaseRound` | src/TransactionManager/TransactionManager.cpp:277-291 | one round of the release loop equals one release of the specification |
| `LockManagers.LockManager.Begin` | src/TransactionManager/TransactionManager.cpp:27-51 | the table equals the specification's begin |
| `LockManagers.LockManager.RecordLock` | src/TransactionManager/TransactionManager.cpp:243-269 | keeps the strongest mode per key |
| `LockManagers.LockManager.RegisterWait` | src/TransactionManager/TransactionManager.cpp:218-237 | waits are registered exactly when all blockers are known and no cycle arises |
| `LockManagers.LockManager.ListBlockers` | src/LockManager/LockManager.cpp:57-90 | the loops collect exactly the owners and queued requests the request must wait for |
| `LockManagers.LockManager.Wait` | src/LockManager/LockManager.cpp:57-100 | joins the queue, or leaves the table unchanged when the wait is refused |
| `LockManagers.LockManager.LockForRead` | src/LockManager/LockManager.cpp:13-100 | table and status equal the specification of a shared lock call |
| `LockManagers.LockManager.LockForWrite` | src/LockManager/LockManager.cpp:106-205 | table and status equal the specification of an exclusive lock call, promotion included |
| `LockManagers.LockManager.PopGranted` | include/LockManager/LockState.h:20-61 | pops exactly the grantable prefix and sets its owners |
| `LockManagers.LockManager.GrantWaiters` | src/LockManager/LockManager.cpp:299-344 | equals settling the key; no round is retried because every waiter is active |
| `LockManagers.LockManager.Release` | src/LockManager/LockManager.cpp:207-286 | table and status equal the specification of an unlock |
| `LockManagers.LockManager.ReleaseLocks` | src/TransactionManager/TransactionManager.cpp:277-291 | releases every recorded lock, last one first; the result equals releasing them one by one |
| `LockManagers.LockManager.End` | src/TransactionManager/TransactionManager.cpp:309-312 | removes the transaction from table and graph |
| `Wal.ChainTop` | src/TransactionManager/TransactionManager.cpp:143-205 | the top of a transaction's chain is one of its actions and the walk continues with the rest |
| `Wal.WalkStep` | src/TransactionManager/TransactionManager.cpp:143-205 | one step of the backward walk over the chain of previous records |
| `Wal.UndoFrame` | src/TransactionManager/TransactionManager.cpp:143-205 | undo depends only on the keys the transaction wrote |
| `WalInvariant.ActionKeeps` | src/containers/BTree.cpp:601-633 | appending a logged action keeps the log invariant |
| `WalInvariant.CompensationKeeps` | src/containers/BTree.cpp:635-655 | appending a compensation record keeps the log invariant |
| `WalInvariant.DecisionKeeps` | src/TransactionManager/TransactionManager.cpp:87-118 | appending a commit, abort or end decision keeps the log invariant |
| `WalInvariant.LogInv` | src/TransactionManager/TransactionManager.cpp:27-216 | every legal log satisfies the invariant: undoing the open transactions gives the committed map |
| `Compensations.AllAccounted` | src/TransactionManager/TransactionManager.cpp:143-205 | at every point of every legal log each transaction's actions are open or compensated, latest first |
| `Compensations.ExactlyOnce` | src/TransactionManager/TransactionManager.cpp:143-205 | a rolled-back transaction has exactly one compensation per action, in descending order, then one end record |
| `Compensations.NeverTwice` | src/Recovery.cpp:192-263 | no action is ever compensated twice and a committed transaction has no compensation |
| `Recovery.AnalysisFindsLosers` | src/Recovery.cpp:63-143 | the forward pass finds exactly the transactions without commit or end, with their last record |
| `Recovery.RedoDecides` | src/Recovery.cpp:22-42 | the last logged image of a page decides what redo leaves, whatever the page held before |
| `Recovery.RedoRestores` | src/Recovery.cpp:22-149 | redo over a file torn between logged moments page by page restores the last logged moment |
| `Recovery.VisitPossible` | src/Recovery.cpp:192-263 | every record the undo walk needs is in the log, and the key holds what the inverse expects to undo |
| `Recovery.VisitSound` | src/Recovery.cpp:192-263 | each round of undo keeps the log legal and the pending records exactly the open ones |
| `Recovery.HighestUnique` | src/Recovery.cpp:192-263 | no two losers stand at the same record, so the largest number names one transaction |
| `Recovery.PeakFalls` | src/Recovery.cpp:192-263 | the largest number still to visit falls in every round, so the loop ends |
| `Recovery.UndoAllEnds` | src/Recovery.cpp:157-279 | undo resolves every transaction and appends only compensations and end records |
| `Recovery.CrashAtomicity` | src/Recovery.cpp:49-279 | recovering any legal log leaves exactly the map of the committed transactions |
| `Recovery.RecoveryIsRestartable` | src/Recovery.cpp:157-279 | recovery may crash after any of its own records: recovering again gives the same map |
| `Transactions.LockMakesLegal` | src/KeyStore.cpp:324-374 | the exclusive key lock is what makes an action legal in the log |
| `Transactions.WriteKeeps` | src/KeyStore.cpp:324-434 | a put or removal under its lock keeps the database invariant |
| `Transactions.CommitKeeps` | src/TransactionManager/TransactionManager.cpp:87-118 | a commit keeps the database invariant |
| `Transactions.AbortKeeps` | src/TransactionManager/TransactionManager.cpp:120-142 | an abort decision keeps the database invariant |
| `Transactions.RollBackKeeps` | src/TransactionManager/TransactionManager.cpp:143-205 | each rollback round keeps the database invariant |
| `Transactions.CrashKeeps` | src/Recovery.cpp:49-149 | a crash that keeps any prefix of the log keeps the database invariant |
| `Transactions.RunKeeps` | src/TransactionManager/TransactionManager.cpp:27-216 | the invariant holds in every run of begins, writes, commits, aborts, crashes and recoveries |
| `Transactions.CanGoOn` | src/TransactionManager/TransactionManager.cpp:143-205 | a live rollback is never stuck |
| `Transactions.RollBackRestores` | src/TransactionManager/TransactionManager.cpp:120-216 | a whole rollback puts back every value the transaction found and closes it |
| `Transactions.EveryCrashIsAtomic` | src/Recovery.cpp:49-279 | in every run a crash that keeps any log prefix recovers to the map of the transactions committed in it |
| `Transactions.NoLockOutlivesItsOwner` | src/TransactionManager/TransactionManager.cpp:100-216 | in every run every lock is held by a live transaction |
| `Transactions.QuiescentStore` | src/TransactionManager/TransactionManager.cpp:87-216 | in every run, whenever no transaction is open the store is the committed map |
| `Transactions.CommittedReads` | src/KeyStore.cpp:268-322 | in every run a key that no open transaction has locked shows its committed value |
| `Transactions.EveryRollBackIsExact` | src/Recovery.cpp:192-263 | in every run, across live aborts and crashed recoveries, a transaction that ended without commit has one compensation per action, latest first, and one end record |
| `TransactionManagers.TransactionManager.constructor` | src/TransactionManager/TransactionManager.cpp:293-307 | transaction numbers continue after the greatest one in the log |
| `TransactionManagers.TransactionManager.Begin` | src/TransactionManager/TransactionManager.cpp:27-51 | the database equals the specification's begin |
| `TransactionManagers.TransactionManager.Mutate` | src/KeyStore.cpp:324-434 | a put or removal equals the specification step, undo descriptor included |
| `TransactionManagers.TransactionManager.Commit` | src/TransactionManager/TransactionManager.cpp:87-118 | equals the specification's commit and releases the locks; with synchronous durability success means that the log is on stable storage through the commit record |
| `TransactionManagers.TransactionManager.SyncLog` | src/Log/Log.cpp:153-170 | the whole log is on stable storage and nothing else changes |
| `TransactionManagers.TransactionManager.Abort` | src/TransactionManager/TransactionManager.cpp:120-216 | the loop ends with every value the transaction found put back, the transaction closed and the log synced |
| `TransactionManagers.TransactionManager.Undo` | src/containers/BTree.cpp:657-689 | one round equals one rollback step of the specification |
| `TransactionManagers.Redo` | src/Recovery.cpp:63-149 | one forward pass computes losers, watermark and pages as analysis and redo specify |
| `TransactionManagers.TopOf` | src/Recovery.cpp:192-194 | finds the entry with the largest record number |
| `TransactionManagers.RestartPass.UndoLosers` | src/Recovery.cpp:181-279 | the heap loop ends with the log and store that undoing all losers specifies |
| `TransactionManagers.RestartPass.Round` | src/Recovery.cpp:192-263 | one round of the loop equals one visit of the specification |
| `TransactionManagers.Restart` | src/Recovery.cpp:49-279 | the whole restart over any torn file ends with exactly the committed map |
| `Durability.NextKeeps` | src/TransactionManager/TransactionManager.cpp:87-118 | work, log sync, page write-back, acknowledgement and crash all keep: file pages are of synced moments, pages hold the logged map at every moment, acknowledged commits are in the synced log |
| `Durability.RunServerKeeps` | src/TransactionManager/TransactionManager.cpp:87-118 | that invariant holds in every run |
| `Durability.EveryRestartIsExact` | src/Recovery.cpp:49-279 | in every run, whatever unsynced records a crash loses: the file is torn only between logged moments, redo over it gives pages that hold exactly the logged map, recovery ends with the committed map, and every acknowledged commit is in it |
| `Durability.AcknowledgedStays` | src/TransactionManager/TransactionManager.cpp:100-117 | no event of any run takes an acknowledgement back |
| `Durability.AcknowledgedIsDurable` | src/TransactionManager/TransactionManager.cpp:100-117 | once acknowledged, a commit is in the log that any later crash of any continuation keeps |
| `Durability.CommitIsAcknowledged` | src/TransactionManager/TransactionManager.cpp:87-118 | an active transaction can always commit, sync and be acknowledged |
| `Durability.EveryCacheWriteIsWriteBack` | src/Pager.cpp:527-560 | every write that any run of the page cache makes puts into the file the image of a moment that is already synced |
| `Durability.RedoOverTheCachesFile` | src/Recovery.cpp:49-140 | after any run of the page cache, redo over the file it left, with any log that keeps its durable records, restores exactly the pages of the last record kept |
| `RaftApply.LastOperationWins` | src/Raft/RaftApplier.cpp:60-99 | of the operations on a key the last decides: a put leaves its value, a delete leaves nothing, other keys stay |
| `RaftApply.ApplierInv` | src/Raft/RaftApplier.cpp:45-120 | the invariant holds in every run of batches, crashes and recoveries |
| `RaftApply.AppliedState` | src/Raft/RaftApplier.cpp:45-120 | between batches the store is the fold of entries 1..applied and applied never passes commit |
| `RaftApply.CrashKeepsWholeEntries` | src/Recovery.cpp:95-110 | a crash at any moment that keeps any log prefix recovers to the fold of entries 1..w for the recovered watermark w |
| `RaftApply.AcknowledgedSurvives` | src/Raft/RaftApplier.cpp:109-117 | an index published as applied is covered by the synced log, so every crash recovers at least it |
| `RaftApply.NextEntryIsNext` | src/Raft/RaftApplier.cpp:45-107 | the entry being applied is always the one after the last committed one |
| `RaftApply.CommitEffect` | src/Raft/RaftApplier.cpp:100-107 | committing an entry's transaction moves watermark and committed map by exactly that entry |
| `RaftAppliers.RaftApplier.constructor` | src/Raft/RaftState.cpp:12-43 | starts at the recovered watermark |
| `RaftAppliers.RaftApplier.ApplyPendingBatch` | src/Raft/RaftApplier.cpp:45-120 | applies the next committed entries in order, syncs their commit records once, and publishes the new watermark last |
| `RaftAppliers.RaftApplier.ApplyEntry` | src/Raft/RaftApplier.cpp:61-107 | one transaction holds exactly the operations of one entry |
| `Walks.EntriesPut` | src/containers/BTree.cpp:294-403 | putting one entry where it belongs updates exactly that key in the map of a walk |
| `BTreeModel.PlugWalk` | src/containers/BTree.cpp:693-963 | a subtree in its surroundings and the whole tree have the same in-order walk |
| `BTreeModel.RouteSides` | src/containers/BTree.cpp:747-934 | siblings left of the routed child lie left of the key, siblings right of it lie right |
| `BTreeModel.FindReaches` | src/containers/BTree.cpp:693-963 | the descent reaches a leaf, loses nothing, and everything outside it is on its side of the key |
| `BTreeRemove.BorrowRightLeaf` | src/containers/BTree.cpp:1525-1593 | borrowing from the right leaf keeps entries and order |
| `BTreeRemove.BorrowLeftLeaf` | src/containers/BTree.cpp:1595-1664 | borrowing from the left leaf keeps entries and order |
| `BTreeRemove.BorrowRightNode` | src/containers/BTree.cpp:1827-1903 | rotating through the parent from the right keeps entries and order |
| `BTreeRemove.BorrowLeftNode` | src/containers/BTree.cpp:1905-1978 | rotating through the parent from the left keeps entries and order |
| `BTreeRemove.BorrowRightGood` | src/containers/BTree.cpp:1525-1593 | after borrowing from the right both nodes are within 99..199 keys |
| `BTreeRemove.BorrowLeftGood` | src/containers/BTree.cpp:1595-1664 | after borrowing from the left both nodes are within 99..199 keys |
| `BTreeRemove.MergeRightWalk` | src/containers/BTree.cpp:1980-2091 | merging with the right sibling keeps entries and order |
| `BTreeRemove.MergeLeftWalk` | src/containers/BTree.cpp:2093-2212 | merging with the left sibling keeps entries and order |
| `BTreeRemove.MergeRightGood` | src/containers/BTree.cpp:1666-1740 | after a merge the node is within limits and the parent has one key fewer |
| `BTreeRemove.MergeLeftGood` | src/containers/BTree.cpp:1742-1825 | after a merge with the left sibling the node is within limits and the parent has one key fewer |
| `BTreeRemove.RepairRestores` | src/containers/BTree.cpp:2214-2374 | repair restores every limit up to the root, changes neither entries nor order, and terminates |
| `BTreeRemove.RaisedWalk` | src/containers/BTree.cpp:1327-1410 | renaming the nearest separator to the left keeps entries and order |
| `BTreeRemove.RemovedIsDeletion` | src/containers/BTree.cpp:414-575 | the shape of the result: on every well-formed tree remove is map deletion, returns the old value and leaves a well-formed tree or none; page capacity comes in with BTreeSizes.RemoveRefines |
| `BTreeSizes.RepairWritesFit` | src/containers/BTree.cpp:2214-2374 | on a tree whose pages fit, every page an underflow repair writes fits if and only if the node that gains fits and a parent with a changed separator fits, level by level |
| `BTreeSizes.RemoveWritesFit` | src/containers/BTree.cpp:414-575 | on a tree whose pages fit, every page a removal writes fits if and only if RemoveFits holds, a test of the pages before the call |
| `BTreeSizes.RemoveRefines` | src/containers/BTree.cpp:414-575 | on every well-formed tree whose pages fit: remove damages a page if and only if RemoveFits fails, and otherwise it is map deletion and leaves a well-formed tree whose pages fit |
| `BTreeOverflow.RemoveOverflows` | src/containers/BTree.cpp:1666-1740 | concrete tree, two leaves of 99 cells of 19 bytes, on which removing one entry merges them into a page that does not fit |
| `BTreeInsert.HalvesWalk` | src/containers/BTree.cpp:1222-1243 | splitting a leaf keeps entries and order with the right half's first key as separator |
| `BTreeInsert.HalvesGood` | src/containers/BTree.cpp:1222-1243 | both halves of a split are within limits |
| `BTreeInsert.NewRootGood` | src/containers/BTree.cpp:1278-1325 | the new root over two halves is well formed |
| `BTreeInsert.InsertedIsUpdate` | src/containers/BTree.cpp:229-404 | the shape of the result: on every well-formed tree insert is map update unless a new key meets a full leaf under a full parent; page capacity comes in with BTreeSizes.InsertRefines |
| `BTreeSizes.SplitNeedsParent` | src/containers/BTree.cpp:1007-1102 | if the overfull leaf fits, both halves and a new root fit; only the parent with the new separator needs a test |
| `BTreeSizes.InsertWritesFit` | src/containers/BTree.cpp:374-399 | every page an insertion writes, the overfull leaf before its split included, fits if and only if InsertFits holds |
| `BTreeSizes.InsertRefines` | src/containers/BTree.cpp:229-404 | on every well-formed tree whose pages fit: insert damages a page if and only if InsertFits fails, ends the process if and only if InsertFits holds and a new key meets a full leaf under a full parent, and otherwise is map update and leaves a well-formed tree whose pages fit |
| `BTreeSizes.SmallFits` | src/containers/BTreePage.cpp:21-27 | with cells of at most 18 bytes every page of up to 200 entries fits, leaf or internal |
| `BTreeSizes.RunIsMap` | src/containers/BTree.cpp:229-575 | for every sequence of puts and deletes: as long as no page overflows and the process lives, the tree is well formed and holds exactly the map they describe |
| `BTreeSizes.SmallRunsKeepTheMap` | src/containers/BTree.cpp:229-575 | for every sequence of puts and deletes with cells of at most 18 bytes no page ever overflows: the tree is exactly the map, or an internal page had to split |
| `BTreeOverflow.InsertOverflows` | src/containers/BTree.cpp:374-384 | concrete root leaf, 193 cells of 19 bytes, on which one more entry does not fit although the leaf is not full in entries |
| `PageFit.KeySizeIs` | src/encoding/KeyCodec.cpp:75-81 | the length of an encoded key can be read off its place in the key order |
| `PageFit.LeafAgrees` | src/containers/BTreePage.cpp:25-27 | a leaf node fits if and only if the page with its encoded keys and values fits |
| `PageFit.InternalAgrees` | src/containers/BTreePage.cpp:21-23 | an internal node fits if and only if the page with its encoded separators and children fits |
| `BTreeOverflow.FullParentEnds` | src/containers/BTree.cpp:1245-1276 | every page of that tree is well inside its limit, and the insertion still ends the process |
| `BTreeFull.FullParentStops` | src/containers/BTree.cpp:1245-1276 | concrete well-formed tree, 199 separators over 200 leaves of 199 keys, on which inserting one new key cannot go on |
| `BTreeInsert.FirstInsert` | src/containers/BTree.cpp:294-330 | the first insert makes a one-entry root leaf |
| `BTreeInsert.LookupRefines` | src/containers/BTree.cpp:141-218 | lookup is map lookup |
| `BTreeInsert.OptimisticInsert` | src/containers/BTree.cpp:747-934 | without a restart request an insert changes only the leaf; restart is requested exactly when it would split |
| `BTreeInsert.OptimisticRemove` | src/containers/BTree.cpp:747-934 | without a restart request a remove changes only the leaf |
| `BTreeExact.RemoveKeepsExact` | src/containers/BTree.cpp:1327-1410 | where every separator names the entry to its right, a removal without underflow keeps it so |
| `BTreePages.PlugRepresents` | src/containers/BTree.cpp:693-963 | pages represent a subtree in its surroundings exactly if they represent the whole tree |
| `BTreePages.BorrowRightHeld` | src/containers/BTree.cpp:1827-1903 | the three edited pages hold the tree after borrowing from the right, all others unchanged |
| `BTreePages.BorrowLeftHeld` | src/containers/BTree.cpp:1905-1978 | the three edited pages hold the tree after borrowing from the left, all others unchanged |
| `BTreePages.MergeRightHeld` | src/containers/BTree.cpp:1980-2091 | the pages hold the merged tree and exactly the right sibling's page is no longer used |
| `BTreePages.MergeLeftHeld` | src/containers/BTree.cpp:2093-2212 | the pages hold the merged tree and exactly this node's page is no longer used |
| `BTreePages.RootHeld` | src/containers/BTree.cpp:1411-1476 | a collapsed root gives its place to its only child, an empty root leaf leaves nothing, and the old root page is free |
| `BTreePages.RaisedHeld` | src/containers/BTree.cpp:1327-1410 | rewriting one separator page holds the renamed tree |
| `BTreePages.SplitHeld` | src/containers/BTree.cpp:965-1102 | two leaf pages and the edited parent hold the tree after a split |
| `BTreePages.SplitRootHeld` | src/containers/BTree.cpp:1278-1325 | two leaf pages and a new root page hold the tree after a root split |
| `BTrees.LowerBoundIndex` | src/containers/BTreePage.cpp:70-84 | binary search finds the first key not below the target |
| `BTrees.MigrateLeaf` | src/containers/BTree.cpp:1222-1243 | the loop moves exactly the entries from the separator on |
| `BTrees.DrainLeaf` | src/containers/BTree.cpp:1666-1740 | the loop appends exactly the sibling's entries in order |
| `BTrees.DrainInner` | src/containers/BTree.cpp:1980-2091 | the loop brings the separator down and appends the sibling's separators and children |
| `BTrees.BTree.constructor` | src/containers/BTree.cpp:80-100 | an empty tree is the empty map |
| `BTrees.BTree.Allocate` | src/Pager.cpp:176-310 | hands out a page that no part of the tree uses |
| `BTrees.BTree.Free` | src/Pager.cpp:312-376 | returns one page, all others untouched |
| `BTrees.BTree.BorrowFromRightLeaf` | src/containers/BTree.cpp:1525-1593 | pages represent the borrowed tree |
| `BTrees.BTree.BorrowFromLeftLeaf` | src/containers/BTree.cpp:1595-1664 | pages represent the borrowed tree |
| `BTrees.BTree.BorrowFromRightInner` | src/containers/BTree.cpp:1827-1903 | pages represent the rotated tree |
| `BTrees.BTree.BorrowFromLeftInner` | src/containers/BTree.cpp:1905-1978 | pages represent the rotated tree |
| `BTrees.BTree.MergeWithRight` | src/containers/BTree.cpp:1666-1740 | pages represent the merged tree and the sibling's page is freed |
| `BTrees.BTree.MergeWithLeft` | src/containers/BTree.cpp:1742-1825 | pages represent the merged tree and this node's page is freed |
| `BTrees.BTree.HandleRootUnderflow` | src/containers/BTree.cpp:1411-1476 | pages represent the tree after root collapse |
| `BTrees.BTree.TryBorrow` | src/containers/BTree.cpp:2284-2354 | right sibling first, then left; nothing changes if neither can lend |
| `BTrees.BTree.Merge` | src/containers/BTree.cpp:2308-2374 | merges right if there is a right sibling, otherwise left |
| `BTrees.BTree.PropagateMerging` | src/containers/BTree.cpp:2214-2374 | the recursion ends with the repaired tree in the pages |
| `BTrees.BTree.PropagateSeparatorChange` | src/containers/BTree.cpp:1327-1410 | the climb ends with the separator renamed in the pages |
| `BTrees.BTree.Descend` | src/containers/BTree.cpp:693-963 | the loop reaches the leaf for the key and records the way |
| `BTrees.BTree.Get` | src/containers/BTree.cpp:141-218 | returns what the map holds |
| `BTrees.BTree.Remove` | src/containers/BTree.cpp:414-575 | returns the old value; the pages stay readable if and only if RemoveFits holds, and then this is map deletion in the pages with exactly the unreachable ones freed; only the leaf is written when no restart is asked for |
| `BTrees.BTree.RemoveFound` | src/containers/BTree.cpp:529-573 | taking out a found entry writes exactly the specified nodes and leaves the specified tree in the pages |
| `BTrees.BTree.Write` | src/containers/BTreePage.cpp:96-98 | a page write, which keeps the pages readable if and only if the contents fit |
| `BTrees.BTree.Insert` | src/containers/BTree.cpp:229-404 | false if and only if a new key meets a full leaf under a full parent; the pages stay readable if and only if InsertFits holds; with both it is map update in the pages; only the leaf is written when no restart is asked for |
| `BTrees.BTree.SplitLeaf` | src/containers/BTree.cpp:965-1102 | the overfull leaf is split and its parent or a new root takes the separator; the pages stay readable if and only if InsertFits holds |
| `BTrees.BTree.NewRoot` | src/containers/BTree.cpp:1278-1325 | a root leaf that split gets an internal root above its halves |
| `BTrees.BTree.GiveToParent` | src/containers/BTree.cpp:1046-1102 | the parent takes separator and child unless that makes it overflow |
| `BTreeCursors.AllIsTheMap` | src/containers/BTreeCursor.cpp:73-194 | the ordered entries are strictly increasing and are exactly the map |
| `BTreeCursors.LeftmostReaches` | src/containers/BTreeCursor.cpp:405-478 | descending along first children reaches the leaf whose entries come first |
| `BTreeCursors.RightOfHereIs` | src/containers/BTreeCursor.cpp:324-403 | the nearest right sibling up the path starts with the entry that follows |
| `BTreeCursors.FromLowerBound` | src/containers/BTreeCursor.cpp:119-178 | everything before the landing place is below the target, everything from there on is not |
| `BTreeCursors.BTreeCursor.constructor` | src/containers/BTreeCursor.cpp:7-15 | a new cursor stands nowhere |
| `BTreeCursors.BTreeCursor.SeekFirst` | src/containers/BTreeCursor.cpp:73-117 | all entries remain, in key order |
| `BTreeCursors.BTreeCursor.DescendToLeftmost` | src/containers/BTreeCursor.cpp:405-478 | stands on the first entry of the subtree |
| `BTreeCursors.BTreeCursor.Climb` | src/containers/BTreeCursor.cpp:324-403 | finds the nearest ancestor with a child to the right, or that there is none |
| `BTreeCursors.BTreeCursor.MoveToNextLeaf` | src/containers/BTreeCursor.cpp:324-403 | stands on the first entry after the leaf, or at the end exactly if there is none |
| `BTreeCursors.BTreeCursor.Next` | src/containers/BTreeCursor.cpp:180-194 | passes exactly one entry; after the last one the cursor stays exhausted |
| `BTreeCursors.BTreeCursor.Land` | src/containers/BTreeCursor.cpp:267-322 | stands on the first key of the leaf that is not below the target, or reports that the leaf has none |
| `BTreeCursors.BTreeCursor.Seek` | src/containers/BTreeCursor.cpp:119-178 | stands on the least key at least the target, in this leaf or the next; end of tree exactly if there is none |
| `BTreeCursors.BTreeCursor.Current` | src/containers/BTreeCursor.cpp:196-223 | the first remaining entry, or the reason there is none |
| `BTreeCursors.Collect` | src/KeyStore.cpp:100-126 | collects entries in order up to the first key out of bounds |
| `BTreeCursors.ScanAll` | src/KeyStore.cpp:438-467 | returns all entries in key order |
| `BTreeCursors.ScanPrefix` | src/KeyStore.cpp:548-588 | returns every entry of the type whose key begins with the prefix, once, in key order, and nothing else |
| `BTreeCursors.ScanRange` | src/KeyStore.cpp:502-546 | returns every entry in [start, end), once, in key order, and nothing else |
| `KeyOrder.CompareBytes` | src/encoding/KeyCodec.cpp:14-26 | sign equals the lexicographic order of unsigned bytes |
| `KeyOrder.Compare` | src/encoding/KeyCodec.cpp:75-81 | sign equals the order by type, then bytes |
| `KeyOrder.Total` | src/encoding/KeyCodec.cpp:14-26 | any two byte strings are equal or ordered one way |
| `KeyOrder.EmbedOrder` | src/encoding/KeyCodec.cpp:75-81 | the embedding of keys into the reals keeps and reflects the order |
| `KeyOrder.BigEndianOrder` | src/encoding/KeyCodec.cpp:115-122 | big-endian bytes of equal length sort like their numbers |
| `KeyOrder.UInt64Order` | src/encoding/KeyCodec.cpp:115-122 | unsigned keys sort like numbers and decode to the number |
| `KeyOrder.FlipIsAdd` | src/encoding/KeyCodec.cpp:124-133 | flipping the top bit of a word adds 2^63 modulo 2^64 |
| `KeyOrder.Int64Order` | src/encoding/KeyCodec.cpp:124-133 | signed keys sort like signed numbers and decode to the number |
| `KeyOrder.PrefixContiguous` | src/KeyStore.cpp:147-171 | between two keys with a type and prefix there are only keys with them |
| `KeyOrder.PrefixStart` | src/KeyStore.cpp:548-588 | the prefix itself is not above any key that has it |
| `KeyOrder.PrefixScan` | src/KeyStore.cpp:548-588 | starting at the prefix and stopping at the first key without it returns exactly the keys with it |
| `ByteStrings.BigEndianInverse` | src/Log/Store.cpp:43-95 | reading a big-endian field gives back the number written, if it fits |
| `Crc32c.Compute` | src/encoding/Crc32c.cpp:5-16 | the nested bit loops compute the specified checksum |
| `Castagnoli.DivisionIsUnique` | src/encoding/Crc32c.cpp:5-16 | long division by the Castagnoli polynomial gives the one remainder |
| `Castagnoli.ChecksumIsRemainder` | src/encoding/Crc32c.cpp:5-16 | for every input the checksum is the inverted remainder of the message, its first 32 bits inverted and 32 zeros appended, modulo the Castagnoli polynomial |
| `Castagnoli.ChecksumDivides` | src/encoding/Crc32c.cpp:5-16 | such a division always exists |
| `Castagnoli.CheckValue` | src/encoding/Crc32c.cpp:5-16 | the published check value of the digits 1 to 9 |
| `Crc32c.BitInjective` | src/encoding/Crc32c.cpp:5-16 | one bit step maps different registers to different registers |
| `Crc32c.RunInjective` | src/encoding/Crc32c.cpp:5-16 | different registers stay different over equal input of any length |
| `Crc32c.OneByteChanges` | src/encoding/Crc32c.cpp:5-16 | inputs of any equal length that differ in exactly one byte have different checksums |
| `WalRecordCodec.Digit16` | src/encoding/Endian.cpp:39-47 | 16-bit fields are positional in base 256, most significant byte first |
| `WalRecordCodec.Digit32` | src/encoding/Endian.cpp:3-15 | 32-bit fields likewise |
| `WalRecordCodec.Digit64` | src/encoding/Endian.cpp:17-37 | 64-bit fields likewise |
| `WalRecordCodec.RecordFormat` | src/Log/WalRecordCodec.cpp:54-71 | the 40-byte header field by field |
| `WalHeaders.EveryRecordIsLinked` | src/Log/WalRecords.cpp:7-28 | in every run of transactions, crashes and recoveries every record names the last record of its transaction before it |
| `WalHeaders.EveryRecordEncodes` | src/Log/WalRecordCodec.cpp:20-71 | in every run every record that is written can be encoded, within the field widths, and is decoded as it was |
| `WalRecordCodec.DecodeInvertsEncode` | src/Log/WalRecordCodec.cpp:54-97 | decoding inverts encoding for every record that can be encoded |
| `WalRecordCodec.EncodeInvertsDecode` | src/Log/WalRecordCodec.cpp:54-97 | an accepted byte string is the only encoding of its record |
| `WalRecordCodec.ChecksumBlind` | src/Log/WalRecordCodec.cpp:44-48 | the checksum does not depend on the checksum field |
| `WalRecordCodec.CorruptionRejected` | src/Log/WalRecordCodec.cpp:73-97 | every change of a single byte of an encoded record is rejected |
| `WalRecordCodec.HardStateFormat` | src/Raft/RaftHardStateStore.cpp:52-76 | term, presence of a vote, its length and the vote, at fixed offsets |
| `WalRecordCodec.HardStateRoundTrip` | src/Raft/RaftHardStateStore.cpp:23-76 | the hard state read back is the one written |
| `WalRecordCodec.HardStateCanonical` | src/Raft/RaftHardStateStore.cpp:23-50 | an accepted hard-state file is the only file with its reading |
| `Segments.FrameReads` | src/Log/Store.cpp:97-117 | a frame that lies within the file is read back, one that does not is refused |
| `Segments.EntryReads` | src/storage/Index.cpp:91-108 | a complete index entry gives the offset of its record |
| `Segments.FramesAfterCrash` | src/Log/Store.cpp:194-224 | a byte prefix of a framed stream parses to exactly the records that are in it whole |
| `Segments.InspectStore` | src/Log/Store.cpp:194-224 | for any file: counts its complete frames and finds where they end |
| `Segments.InspectIndex` | src/storage/Index.cpp:157-186 | for any file: corrupt exactly if a complete entry does not carry its own ordinal |
| `Segments.AfterCommon` | src/Log/Segment.cpp:187-216 | the last common index entry leads to its record and the rest of the store starts right after it |
| `Segments.MissingOffsets` | src/Log/Segment.cpp:218-242 | the loop notes where each record without an index entry starts |
| `Segments.Rebuilt` | src/Log/Segment.cpp:244-262 | cutting and appending makes the index canonical |
| `Segments.Recover` | src/Log/Segment.cpp:166-274 | after a crash that left byte prefixes of store and index, either one ahead: succeeds, keeps exactly the whole frames, index canonical, count exact |
| `Segments.RepairRestarts` | src/Raft/RaftSegment.cpp:149-215 | a crash during repair is again such a crash and loses nothing |
| `Segments.Segment.Append` | src/Log/Segment.cpp:34-73 | accepts exactly the next number and appends that record to store and index |
| `Segments.Segment.Read` | src/Log/Segment.cpp:75-96 | reads every held record through the index and refuses every other number |
| `Segments.Segment.Scan` | src/Log/Segment.cpp:98-127 | walking the store alone finds the same records |
| `Segments.Open` | src/Log/Segment.cpp:11-32 | opening a crashed pair of files gives a valid segment with exactly the surviving records |
| `Freelists.AllocateKeeps` | src/Pager.cpp:176-310 | the page handed out was not in use and the chain stays well formed |
| `Freelists.FreeKeepsExactlyWhen` | src/Pager.cpp:312-376 | freeing a page of the file keeps the chain well formed if and only if the page was in use |
| `Freelists.DoubleFreeSharesAPage` | src/Pager.cpp:312-376 | concrete double free after which one page is handed out twice |
| `Freelists.Balance` | src/Pager.cpp:176-376 | pages in use and free pages add up to the file |
| `Freelists.RunKeeps` | src/Pager.cpp:176-376 | the chain is well formed after every sequence of allocations and frees of held pages |
| `Freelists.Conservation` | src/Pager.cpp:176-376 | in every run free and used pages partition the file and the next allocation is a page nobody holds |
| `Freelists.OthersKept` | src/Pager.cpp:176-310 | allocation leaves the contents of pages in use alone |
| `Freelists.GrowsOnlyWhenFull` | src/Pager.cpp:176-310 | the file grows only when there is no free page |
| `Freelists.FileIsThePeak` | src/Pager.cpp:176-376 | in every run the file has one header page and as many pages as were ever in use together |
| `Freelists.Pager.constructor` | src/Pager.cpp:596-641 | a new file has no free and no used pages |
| `Freelists.Pager.AllocatePage` | src/Pager.cpp:176-310 | equals the specification, reusing freed pages first; a wrong kind is refused |
| `Freelists.Pager.FreePage` | src/Pager.cpp:312-376 | equals the specification; the chain survives exactly if the page was in use; out-of-range pages are refused |
| `PageCaches.SyncCovers` | src/Log/Log.cpp:153-170 | succeeds exactly on held record numbers, covers the target and never moves back |
| `PageCaches.SyncSegments` | src/Log/Log.cpp:153-170 | the segment loop computes the specified durable end |
| `PageCaches.VictimIs` | src/PCache.cpp:53-78 | a victim is unpinned, not pending, clean if any clean one exists; none exactly when every unpinned page is pending |
| `PageCaches.FindVictim` | src/PCache.cpp:53-78 | the loop finds the specified victim |
| `PageCaches.FlushKeeps` | src/Pager.cpp:527-560 | flushing keeps the invariant and no frame with unlogged bytes changes |
| `PageCaches.EvictKeeps` | src/PCache.cpp:121-142 | evicting a clean unreferenced frame keeps the newest bytes in the file |
| `PageCaches.PutKeeps` | src/PCache.cpp:33-119 | placing a frame keeps the invariant; pinned and pending frames stay |
| `PageCaches.CachePutKeeps` | src/Pager.cpp:798-840 | making room, flushing if need be, keeps the invariant whether it succeeds or fails |
| `PageCaches.StepKeeps` | src/Pager.cpp:140-583 | every step keeps the invariant |
| `PageCaches.RunKeeps` | src/Pager.cpp:140-583 | the invariant, dirty implies need-flushing included, holds in every run |
| `PageCaches.WalBeforeData` | src/Pager.cpp:527-560 | in every run each image ever written to the database file has a record number that was durable at that moment |
| `PageCaches.ReadsLatest` | src/Pager.cpp:705-719 | in every run reading a page gives the bytes last stored in it |
| `PageCaches.ProtectedStays` | src/PCache.cpp:33-142 | no step removes a frame that is referenced or holds unlogged bytes |
| `PageCaches.PendingNotWritten` | src/Pager.cpp:527-560 | no step writes a page with unlogged bytes to the file |
| `PageCaches.FlushAllCompletes` | src/Pager.cpp:562-583 | in every run, when flushing all tracked pages succeeds the file alone holds the newest bytes of every page |
| `PageCaches.FlushLaw` | src/Pager.cpp:527-560 | flushing succeeds unless the page has unlogged bytes or is dirty under a record the log does not hold; a failure changes nothing |
| `PageCacheLaws.PutLaw` | src/Pager.cpp:798-840 | with room the frame is added; full, it replaces an idle clean frame, else an idle dirty one that is first written out, else there is no room; a failure changes nothing |
| `PageCacheLaws.WithinCapacity` | src/PCache.cpp:33-119 | in every run the cache holds at most its capacity |
| `PageCacheLaws.LoadLaw` | src/Pager.cpp:705-719 | in every run loading succeeds when cached, when there is room, when an idle frame is clean, or when the dirty victim's record is held; it fails for want of room if and only if the cache is full and every idle frame is pending |
| `PageCacheLaws.ReferencesBalance` | src/Pager.cpp:140-174 | in every run the reference count of a page is the number of references given out and not returned |
| `PageCaches.Pager.Sync` | src/Log/Log.cpp:153-170 | refines the synchronization specification |
| `PageCaches.Pager.FlushWalPage` | src/Pager.cpp:527-560 | state and status equal the flush specification |
| `PageCaches.Pager.Place` | src/PCache.cpp:33-119 | state and outcome equal the put specification |
| `PageCaches.Pager.MakeRoom` | src/Pager.cpp:798-840 | state and status equal the specification of putting with one spill |
| `PageCaches.Pager.GetOrLoad` | src/Pager.cpp:705-719 | the frame shows the newest bytes |
| `PageCaches.Pager.GetPage` | src/Pager.cpp:140-174 | loads and pins, equal to the specification step |
| `PageCaches.Pager.UnrefPage` | src/Pager.cpp:406-417 | the last reference makes the page evictable, equal to the specification step |
| `PageCaches.Pager.BeginWalWrite` | src/Pager.cpp:378-390 | the page is pending before its first byte changes; the status is that of loading, else busy without the exclusive latch, else success |
| `PageCaches.Pager.InstallPageLsn` | src/Pager.cpp:471-505 | publishes exactly a pending cached page under a nonzero number; every refusal changes nothing |
| `PageCaches.Pager.FlushWalPages` | src/Pager.cpp:562-583 | succeeds unless some dirty page is pending or under a record the log does not hold; on success the file alone holds the newest bytes of every page |
| `SlottedPages.KeyInverse` | src/containers/BTreePage.cpp:29-47 | a written key is parsed back whatever follows it |
| `SlottedPages.LeafCellInverse` | src/containers/BTreePage.cpp:487-502 | a leaf cell is parsed back whatever follows it |
| `SlottedPages.InternalCellInverse` | src/containers/BTreePage.cpp:289-294 | an internal cell is parsed back whatever follows it |
| `SlottedPages.CellsDisjoint` | src/containers/BTreePage.cpp:445-485 | cells never overlap each other |
| `SlottedPages.InsideExactlyWhen` | src/containers/BTreePage.cpp:464-484 | in 16-bit arithmetic every cell write stays inside the page if and only if the cells together are no longer than the page |
| `SlottedPages.ClearExactlyWhen` | src/containers/BTreePage.cpp:464-484 | in 16-bit arithmetic every cell write stays inside the page and clear of header and directory if and only if everything fits in 4072 bytes |
| `SlottedPages.WrittenIsLaid` | src/containers/BTreePage.cpp:445-485 | the write loop, defined without any size test, gives the clean layout for everything that fits |
| `SlottedPages.CountedFits` | src/containers/BTreePage.cpp:445-485 | n cells of 19 bytes fit if and only if n <= 193, and are written inside the page if and only if n <= 214 |
| `SlottedPages.OverfullLeafIsLost` | src/containers/BTreePage.cpp:316-388 | concrete leaf of 194 entries that is written inside the page and cannot be decoded again, because its last cell lies over the directory |
| `SlottedPages.UnfitMayBeRead` | src/containers/BTreePage.cpp:316-388 | concrete leaf of 127 entries that does not fit and is decoded as it was all the same, since the one overwritten byte is equal: fitting is sufficient for the round trip, not necessary |
| `SlottedPages.SlotIs` | src/containers/BTreePage.cpp:316-388 | directory entry i leads to cell i |
| `SlottedPages.LeafRoundTrip` | src/containers/BTreePage.cpp:316-388 | decoding a flushed leaf gives back its keys and values |
| `SlottedPages.InternalRoundTrip` | src/containers/BTreePage.cpp:107-183 | decoding a flushed internal page gives back its separators and children |
| `SlottedPages.NewPageHasChild` | src/containers/BTreePage.cpp:296-307 | a newly laid out internal page decodes to one child, so setting its leftmost child is refused: the reason internal splits abort |
| `SlottedPages.LeafFreeSpace` | src/containers/BTreePage.cpp:446-485 | the two header pointers of a leaf delimit exactly the free bytes between directory and cells |
| `SlottedPages.InternalFreeSpace` | src/containers/BTreePage.cpp:255-290 | likewise on an internal page |
| `SlottedPages.InternalPage.SetLeftmostChild` | src/containers/BTreePage.cpp:217-221 | accepted exactly when the page has no child |
| `SlottedPages.WriteAt` | src/containers/BTreePage.cpp:29-36 | overwrites exactly the given bytes in place |
| `SlottedPages.WritePage` | src/containers/BTreePage.cpp:445-485 | for any cells: the in-place loop in 16-bit arithmetic leaves the page if and only if the cells are too long together, and otherwise leaves exactly the specified bytes, overwritten ones included |
| `SlottedPages.WriteCell` | src/containers/BTreePage.cpp:470-483 | one cell and its directory entry |
| `SlottedPages.TotalBytes` | src/containers/BTreePage.cpp:459-463 | the cell sizes added up in 16 bits |
| `SlottedPages.LeafPage.Flush` | src/containers/BTreePage.cpp:445-485 | for any storable contents: inside the page if and only if the cells are no longer than the page, and then exactly the specified bytes; what fits is decoded as it was |
| `SlottedPages.LeafPage.Decode` | src/containers/BTreePage.cpp:316-388 | for any page bytes equals the decoding specification, malformed pages refused |
| `SlottedPages.InternalPage.Flush` | src/containers/BTreePage.cpp:253-287 | for any storable contents: inside the page if and only if the cells are no longer than the page, and then exactly the specified bytes; what fits is decoded as it was |
| `SlottedPages.InternalPage.Decode` | src/containers/BTreePage.cpp:107-183 | for any page bytes equals the decoding specification, malformed pages refused |

## Left out

- gRPC stubs, protobuf conversion, sockets, client sessions, signals and `main`: input and output only.
- Disk calls and their exceptions: a file is a byte sequence, a hard-state write is atomic, and a failed append is not modelled beyond the refusal to go on.
- Election timers, condition variables and RPC deadlines: timeouts are arbitrary steps; nothing is claimed about liveness or time.
- Leader replication threads and leader commit advancement: the source does not implement them, so nothing is claimed about leader completeness.
- Crash in the middle of truncating several Raft segments: the source does not survive it (reopening rejects the gap).
- Removal of old log segments at startup: it can drop the commit records the Raft watermark is rebuilt from; the model keeps the log from its start.
- Raft writes mixed with client transactions on the same keys: Raft application skips the locks, so the two kinds of runs are kept apart.
- SystemAction records: redone like actions and never undone; the model has none.
- The Abort branch of the restart undo walk: `Wal.WalkStep` shows that the walk only meets begin, action and compensation records, so the branch cannot be reached.
- The cancelled-waiter branch of the lock wait: every queued transaction is active in every run, so no waiter is ever cancelled.
- Page latches: their effect on insert and remove is stated by the optimistic-descent lemmas; shard bookkeeping is not modelled.
- Least-recently-used order in the page cache: not claimed, the source does not have it.
- Frames loaded inside allocate_page and free_page: the freelist is modelled over page images, not cached frames.
- Value payload encodings and their validation, the page envelope (its checksum and kind), the database header, message and journal codecs: easy or unused; leaf pages take value validity as a parameter.
- Cursor invalidation and failures to read a page under a cursor: writes are refused while a cursor is open, so the tree is fixed.
- BTrees.BTree.Insert: an answer of false stands for the process ending and a page that does not fit for a damaged file, so nothing is said about the tree then.
- BTrees.BTree.Remove: nothing is said about the tree once a page that does not fit was written.
- BTrees.BTree.Allocate: page numbers come from an abstract free set; the real chain is Freelists.Pager.
- Segments.Recover: for files that are not left by a crash it promises only that a success keeps exactly the complete frames and one index entry for each; damage inside a complete frame is left to the record checksum.
- Segments.Open: on files that no crash leaves behind it promises no canonical index, as the source trusts every complete index entry.
- Freelists.Pager.FreePage: the source does not check that the page is in use, so well-formedness afterwards is stated as an equivalence.
- SlottedPages.WritePage: once a cell leaves the page it only says so; what the code then overwrites outside the page is not modelled.
- SlottedPages.LeafPage.Flush: takes contents that the page accepted on insertion (valid keys and values), as the source aborts on any other.
- SlottedPages.InternalPage.Flush: takes contents that the page accepted on insertion, as for leaves.
- BTreeInsert.InsertedIsUpdate: leaves page capacity out; BTreeSizes.InsertRefines is the full statement.
- BTreeRemove.RemovedIsDeletion: leaves page capacity out; BTreeSizes.RemoveRefines is the full statement.
- BTrees.BTree.constructor: a new tree only; opening an existing file is not modelled.
- LockManagers.LockManager.GrantWaiters: takes queues of active transactions, the only ones any run produces; cancelling an inactive waiter is not modelled.
- LockManagers.LockManager.Release: takes queues of active transactions, as for GrantWaiters.
- Recovery.VisitPossible: is about the log and the map; undoing a removal goes through the insertion code, which ends the process where BTreeSizes.InsertRefines says so.
- Transactions.EveryCrashIsAtomic: is about the log and the map, for a crash that may lose unsynced records; page images, the synced prefix and acknowledged commits are in Durability.EveryRestartIsExact.
- Durability.EveryRestartIsExact: an action counts only if the page images it logs hold the new map, as BTrees.BTree proves of the pages it writes; that all of these are logged is not modelled, and the page layout is a parameter.
- Durability.RedoOverTheCachesFile: takes the images the cache publishes to be the ones in the log records they name; the copying of page bytes into a log record is not modelled.
- PageCaches.Pager.UnrefPage: requires a cached page, as the source asserts, and a positive reference count, which the source does not check and its callers keep.
- SlottedPages.LeafPage.Decode: a cell that runs past the page is refused; the source reads on without a bound (src/containers/BTreePage.cpp:38-47 and 487-502).
- SlottedPages.InternalPage.Decode: a cell that runs past the page is refused, as for leaves.
- RaftLaws.CommitIsConfirmed: what is newly committed is the sender's log; that a majority holds it is not claimed, since the source does not advance a leader's commit index and the model takes it as an input.
- RaftLaws.RestartRemembers: does not claim that the recovered watermark lies inside the recovered log, because the two come from different files.
- RaftServers.RaftServer.ReplicateEntries: says that at least the batch is durable, because the log syncs whole segments.
- TransactionManagers.Restart: reads the map off the pages through a function given as a parameter, which has to be right for the last logged moment only; Durability.EveryRestartIsExact shows that it is in every run.
