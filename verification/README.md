# A verified model of the replicated DNS store

The name server keeps its records in a store that every replica of a cluster rebuilds from one
agreed Raft log. There are two such stores. The in-memory one is a map from name to record type to
record strings. The paged one splits that map by the hash of the name, keeps a bounded number of
pages in memory behind an LRU list, swaps the others to disk, and survives crashes because every
page remembers the log index it was last changed at. This project models both stores, the loop that
hands log entries to them, query resolution on top of them, the record cache, the front server that
spreads questions over clusters, and the record transfer to a new cluster.

The centre is the claim the paged store exists for: whatever is swapped in and out, and wherever a
node crashes, the union of its resident pages over its disk pages is the plain fold of the log.

| file | what it holds |
|---|---|
| `Records.dfy` | resource records; the hash, lower-casing, parser and printer as arbitrary functions |
| `FlatStore.dfy` | the log, its fold, projection to one page, the in-memory store as a class |
| `Lru.dfy` | the replacement policy by itself, over any access trace |
| `Pages.dfy` | the paged store as a value, its view, and what lookups and commits do to it |
| `PagedStore.dfy` | the paged store as objects: page map, list nodes, back-pointers; proved against `Pages.dfy` |
| `Recovery.dfy` | runs of one replica: delivery, application, queries, snapshots, crashes |
| `Raft.dfy`, `Compaction.dfy` | the apply loop on 64-bit indices; snapshot and compaction thresholds |
| `Startup.dfy` | restart of a whole replica: raft node, channel and store together |
| `Serving.dfy` | what the commit loop of an initialised store makes of the messages sent to it |
| `LeaderSnapshot.dfy` | a restart in which a leader snapshot arrives before replay ends |
| `RecordCache.dfy` | the TTL cache and its agreement with the history of adds |
| `Chase.dfy`, `Resolve.dfy` | CNAME chases and the meaning of a query |
| `AnswersFromLog.dfy` | what is answered, said from the log and the history of the cache alone |
| `FlatQuery.dfy`, `PagedQuery.dfy` | query processing on either store, and their agreement |
| `DirectQuery.dfy` | batching of questions and merging of replies at the front server |
| `Migration.dfy` | the record request and the fetch loop of a new cluster |
| `Permutation.dfy` | lists that hold the same things in another order |

## What holds only under a condition

Several properties are not true of the code as it stands. Each is stated with the exact condition
under which it is true and with an input for which it is not.

- **Snapshots race with the store.** The channel is unbuffered, but the store applies an entry after
  receiving it, so a snapshot labelled with `appliedIndex` can lack the last delivered entry. It is
  safe exactly when nothing is pending or the pending operation changes nothing
  (`Recovery.SnapshotSafeIffSettled`, for every future of a run `Recovery.SnapshotSafeForEverIff`, for
  the in-memory store `FlatStore.LaggingSnapshotIff`);
  `Recovery.UnsettledSnapshotLosesEntry` is a run in which a committed record is lost. The recovery
  theorems therefore ask that the newest snapshot before each crash was settled, and nothing of any
  other snapshot; a run without crashes may take its snapshots at any time.
- **A paged snapshot holds resident pages only.** Installed on another node it is exact if and only if
  that node's disk has the same records as the sender's on all non-resident pages
  (`Recovery.InstallExactIff`); `Recovery.InstallLosesRecord` is a run whose snapshot lacks a record.
- **The initial commit loop ends on the first nil and does not load its snapshot.** When that nil
  announces a leader snapshot, the store goes on without the entries the snapshot covers. Only the
  end-of-replay nil makes it load the newest snapshot, over what it applied since; if the leader's
  reaches the end of the old log, nothing is ever loaded. The newest snapshot is the leader's, or one
  the node has since taken of that incomplete store, which needs more than 10001 further entries in
  the old log (`LeaderSnapshot.OwnSnapshotLate`). For either one, `LeaderSnapshot.RightBeforeSignalIff`,
  `RightAfterSignalIff` and `EarlyEndRightIff` say for which logs the store is right before that nil,
  after it, and all the time. `EarlyEndLosesRecord` and `OwnSnapshotLosesRecord` give a log for each of
  the three losses, and `RestartWithLeaderSnapshot` shows that raft node and store behave so.
- **Compaction is never refused** if and only if no more entries are kept for slow followers than lie
  between two snapshots (`Compaction.NeverPanicsIff`, with two turns that end in a refusal in
  `Compaction.ShortSnapshotsPanic`); both numbers are 10000 in the program.
- **A CNAME cycle makes resolution run for ever.** It ends if and only if no name comes up twice
  (`Chase.ChaseEndsIff`); one added record is enough for a cycle (`Resolve.CnameToItselfLoops`). Query
  results are stated for chases that end.
- **Deletes take the name as given**, but adds file a record under its lower-cased name. A delete
  removes what was added if and only if it spells the name in lower case
  (`FlatStore.DeleteAfterAddIff`, and `Pages.PagedDeleteAfterAddIff` for the paged store);
  `FlatStore.UpperCaseDeleteFails` is a log that adds and deletes `A.` to no effect.
- **The list of names to migrate is never cleared.** A later migration is served every stored name
  once if and only if the names collected before begin with all the names stored now
  (`Migration.ExactIff`); `Migration.SecondMigrationLosesRecords` is one that does not propose a record
  that moves.
- **A cluster with an empty server list** gives neither reply nor error, and the worker dereferences
  nil. This happens if and only if some question is located at such a cluster
  (`DirectQuery.ServeQuestions`); `DirectQuery.SendUntilSuccess` gives nothing exactly on the empty
  list.

A name-server string that parses to no record still takes a place in the authority section. Both
stores do this, and the model keeps it.

The comment at dns/paged_dns_store.go:512-514 says that snapshots are no longer necessary; the one
below it says they are. The model follows the code, which uses them.

## Model

Names of members are qualified by module and class. `cap`, the number of pages kept in memory, is 100
in the program and any number of at least 1 here.

| member | source | states |
|---|---|---|
| FlatStore.SnapshotPlusReplay | dns/dns_store.go:304-404 | recovering the state at index i and applying the entries after it up to j gives the state at j |
| FlatStore.StoreIsLog | dns/dns_store.go:273-286 | under each name and type the store holds exactly the strings added in lower case since the last literal delete, in log order, and no empty lists |
| FlatStore.StoreIsAdds | dns/dns_store.go:273-286 | by log positions: under a name and type there is, in log order, one printed record for each entry that added one there with no delete of them after it |
| FlatStore.NoOpIffUnchanged | dns/dns_store.go:354-379 | an operation leaves the store alone if and only if it is an unparseable add or a delete of what is not there |
| FlatStore.LaggingSnapshotIff | dns/raft.go:350-361 | a snapshot labelled with an index one entry ahead of the state it holds recovers every continuation of the log if and only if that entry is a no-op |
| FlatStore.UnchangedIff | dns/dns_store.go:354-379 | a stretch of the log has no effect if and only if, under every name and type, it adds nothing, or deletes what was there and adds the very same strings again |
| FlatStore.OmissionUnseenIff | dns/dns_store.go:354-379 | a log with a stretch left out and a stretch cut off leaves the same store as the whole one if and only if, under every name and type, it leaves the same strings |
| FlatStore.DeleteAfterAddIff | dns/dns_store.go:354-379 | deleting a record just added removes its type if and only if the delete spells the name in lower case; otherwise all strings stay |
| FlatStore.UpperCaseDeleteFails | dns/dns_store.go:354-379 | a log that adds and deletes a name in the same upper-case spelling and keeps the record |
| FlatStore.ProjApply | dns/paged_dns_store.go:385-430 | the effect of an operation on one page is the operation applied to that page alone if the page is touched, else none |
| FlatStore.ProjectionOfFold | dns/paged_dns_store.go:385-430 | folding the log and keeping one page equals folding only the operations that hash to the page |
| FlatStore.DnsStore.InsertRR | dns/dns_store.go:273-286 | the new store is the old one with the printed record appended under the lower-cased name |
| FlatStore.DnsStore.DeleteRRs | dns/dns_store.go:368-379 | the type is removed from the name, and the name when no type is left |
| FlatStore.DnsStore.ReadCommits | dns/dns_store.go:304-387 | the loop ends with the store, and after the number of messages, that reading the channel from the right snapshot means |
| FlatStore.DnsStore.RecoverFromSnapshot | dns/dns_store.go:395-404 | the store becomes the snapshot |
| Lru.Residency | dns/paged_dns_store.go:151-196 | after any trace from an empty list, the list is the last `cap` distinct keys in order of recency |
| Lru.RecencyOrder | dns/paged_dns_store.go:182-196 | that order is the order of last use |
| Lru.EvictsLeastRecent | dns/paged_dns_store.go:167-172 | the key a miss drops was last used before every other resident |
| Lru.Inclusion | dns/paged_dns_store.go:151-196 | the list at a smaller capacity is a suffix of the list at a larger one |
| Lru.ResidencyFrom | dns/paged_dns_store.go:546-564 | from a restored list it behaves as if that list had just been accessed in order |
| Records.PageOf | dns/paged_dns_store.go:24-36 | a page number is the upper 32 bits of the hash |
| Pages.GetPageKeeps | dns/paged_dns_store.go:151-196 | a lookup keeps the structural invariant, makes its page resident and changes no copy of any page |
| Pages.GetPageKeepsView | dns/paged_dns_store.go:151-196 | loads and evictions never change the view |
| Pages.CommitKeeps | dns/paged_dns_store.go:385-430 | a commit keeps the invariant and changes the copy of the page it touches and of no other |
| Pages.CommitRefines | dns/paged_dns_store.go:385-430 | on the view a commit is the flat operation, unless its page is already at or past the index, and then it is nothing |
| Pages.PagedDeleteAfterAddIff | dns/paged_dns_store.go:385-430 | an add and a delete at new indices act on the view as on the flat store, and remove the record under the same condition |
| Pages.ViewIs | dns/paged_dns_store.go:182-201 | the view is a given flat store if and only if every page copy is that store's projection |
| Pages.ResidentPages | dns/paged_dns_store.go:151-196 | after any trace of accesses on an empty store, the resident pages are the last `cap` distinct ones and no record has appeared |
| PagedStore.PagedDnsStore.ReadPageIn | dns/paged_dns_store.go:119-132 | a page on disk that is not resident becomes resident as a new object with the disk's contents; nothing else changes |
| PagedStore.PagedDnsStore.WritePageOut | dns/paged_dns_store.go:134-145 | the disk gets the current contents of a resident page; any other number does nothing |
| PagedStore.PagedDnsStore.LoadPageAndUpdateLRU | dns/paged_dns_store.go:151-177 | loading links the page to a new last node and swaps the front page out when the list is too long; map, list and back-pointers stay in bijection |
| PagedStore.PagedDnsStore.SwapOutFront | dns/paged_dns_store.go:167-173 | the front page leaves list and memory and its contents reach the disk |
| PagedStore.PagedDnsStore.MoveToBack | dns/paged_dns_store.go:186-193 | a hit replaces the page's node by a new one at the end and moves nothing else |
| PagedStore.PagedDnsStore.GetPageOf | dns/paged_dns_store.go:182-196 | the result is always the resident page object filed under the name's page number, holding that page's current copy |
| PagedStore.PagedDnsStore.LookupNameMap | dns/paged_dns_store.go:198-201 | the records found under a name are those of the view; pages, list and disk change as by one page access, and no page copy changes |
| PagedStore.PagedDnsStore.InsertRR | dns/paged_dns_store.go:385-408 | the object graph after an insert represents the committed value; an index already reached is skipped |
| PagedStore.PagedDnsStore.DeleteRRs | dns/paged_dns_store.go:411-430 | likewise for deletes, whose page index moves even when nothing is deleted |
| PagedStore.PagedDnsStore.GetSnapshot | dns/paged_dns_store.go:527-543 | the snapshot is the resident pages and their order, nothing from disk |
| PagedStore.PagedDnsStore.RecoverFromSnapshot | dns/paged_dns_store.go:546-564 | pages, list and back-pointers are rebuilt from the snapshot; the disk is untouched and the invariant holds |
| PagedStore.PagedDnsStore.ReadCommits | dns/paged_dns_store.go:435-510 | the loop leaves the object graph, and has taken the number of messages, that reading the channel from the right snapshot means; what that is, while initialising and while serving, is in `Startup` and `Serving` |
| Recovery.CrashRecoveryExact | dns/paged_dns_store.go:435-564 | crash at any point of any run, also during an earlier replay: reloading the snapshot and replaying through the last index makes the view the fold of the log up to it, provided the snapshots that crashes reload were settled |
| Recovery.ServedViewIsFold | dns/paged_dns_store.go:384-564 | whenever queries are served, in any run whose crashes reloaded settled snapshots, and so in every run without crashes, the view is the fold of all delivered entries, or of all but the one pending |
| Recovery.EveryCopyIsAVersion | dns/paged_dns_store.go:119-177 | every copy of a page in memory, on disk or in the newest snapshot is the projection of the log at its own commit index; from a settled snapshot, the copy recovery picks lacks no change at or before the snapshot index |
| Recovery.StepKeeps | dns/paged_dns_store.go:384-564 | every enabled step keeps the replica invariant, snapshots when settled |
| Recovery.SwapKeeps | dns/paged_dns_store.go:134-177 | an eviction that overwrites a newer disk copy with an older one keeps recovery exact |
| Recovery.AtMostOnePending | dns/raft.go:140-190 | in every run at most one delivered proposal is unapplied, and it is the last one delivered |
| Recovery.SnapshotSafeIffSettled | dns/raft.go:350-378 | a snapshot followed by a crash with nothing left to replay restores the delivered state if and only if nothing effective was pending |
| Recovery.SnapshotSafeForEverIff | dns/raft.go:350-378 | a snapshot taken in a run recovers every future of the run, with any further crashes and replays, if and only if nothing effective was pending |
| Recovery.UnsettledSnapshotLosesEntry | dns/raft.go:350-378 | a run in which a committed record is lost to the race |
| Recovery.InstallExactIff | dns/paged_dns_store.go:512-564 | a snapshot on another disk reproduces the store if and only if that disk has the same records on every page that was not resident |
| Recovery.InstallOnFreshNode | dns/paged_dns_store.go:512-564 | on an empty disk: if and only if only empty pages had been swapped out |
| Recovery.InstallLosesRecord | dns/paged_dns_store.go:527-564 | a run that adds a record, swaps its page out and takes a settled snapshot, which on an empty disk lacks the record |
| Recovery.LookupsInRun | dns/paged_dns_store.go:182-201 | any names looked up one after the other are steps of a run |
| Raft.WrappedCount | dns/raft.go:132-134 | the wrapping subtraction gives the right count also when the batch starts one past the applied index |
| Raft.RaftNode.constructor | dns/raft.go:228-251 | a restart without entries sends the nil at once; otherwise the last entry's index is remembered |
| Raft.RaftNode.EntriesToApply | dns/raft.go:124-136 | a gap is fatal; otherwise the result is exactly the suffix of entries above the applied index |
| Raft.RaftNode.PublishEntry | dns/raft.go:140-190 | the removal of this very node stops it, with nothing sent and the applied index unmoved; every other entry, any other configuration change included, is published exactly when the sends suffice; what was sent and applied when they do not |
| Raft.RaftNode.PublishEntries | dns/raft.go:140-190 | succeeds exactly when the sends suffice for the range and no entry removes this node; with enough sends it otherwise stops right at the first that does; the channel has carried the messages of the part published |
| Raft.RaftNode.PublishSnapshot | dns/raft.go:330-346 | an old snapshot is fatal, an empty one ignored, any other sends the nil and moves both indices to it |
| Raft.RaftNode.MaybeTriggerSnapshot | dns/raft.go:348-378 | index order is kept, the storage never refuses, and the compaction index lies strictly above the offset and 10000 below the applied index; on the indices this is the check of `Compaction` at 10000 |
| Raft.RaftNode.HandleCommitted | dns/raft.go:423-443 | one turn's committed entries: fatal exactly on a gap, running on exactly when nothing stops it; applied index and messages in each case, nothing sent twice |
| Raft.RaftNode.HandleReady | dns/raft.go:423-443 | one whole turn with or without a leader snapshot: the same, after the nil for the snapshot, and then the snapshot check exactly when nothing stopped the turn; offset <= snapshot index <= applied index <= last stored is kept and it never panics |
| Raft.RaftNode.ServeChannels | dns/raft.go:380-454 | over any overlapping batches the loop goes on exactly as long as each batch passes, and then has applied and sent everything up to the largest index committed, with the snapshots and compactions that the turns of `Compaction` make; it never passes an entry that removes this node, and with enough sends stops only there; wherever it stops, the proposals sent are those between the starting and the current applied index |
| Raft.ReachedIsLargest | dns/raft.go:423-443 | the index the loop gets to is the largest of a non-empty batch, or the start |
| Raft.GaplessPass | dns/raft.go:423-443 | batches without a gap, with room for all sends and no removal of this node all pass |
| Raft.MessagesInOrder | dns/raft.go:140-190 | each proposal sent carries its own index, from its own log position, in strictly increasing order |
| Raft.MessagesComplete | dns/raft.go:140-190 | every proposal of the range is sent |
| Raft.SignalOnce | dns/raft.go:180-187 | the nil that ends replay is sent once if the range holds the last replayed index, else not at all |
| Compaction.TurnsOrdered | dns/raft.go:348-378 | index order over any sequence of turns and leader snapshots |
| Compaction.ShortSnapshotsPanic | dns/raft.go:348-378 | two turns after which the storage refuses, for any thresholds with snapshots closer than the entries kept |
| Compaction.NeverPanicsIff | dns/raft.go:348-378 | no sequence of turns is ever refused if and only if the entries kept do not exceed the snapshot distance |
| Startup.ReadReplay | dns/paged_dns_store.go:453-510 | the initial loop applies exactly the replayed proposals and stops on the one nil |
| Startup.RestartReachesLogEnd | dns/paged_dns_store.go:435-510 | after a crash anywhere, the initial loop on what the raft node publishes takes exactly the replay messages and leaves the fold of the log |
| Startup.RestartReplica | dns/raft.go:228-251 | the same for the raft node and store objects: the node goes on exactly when every committed batch passes, and when these reach the end of the old log the store holds its fold |
| Startup.FlatRestart | dns/dns_store.go:304-404 | the in-memory store restarted from its snapshot applies exactly the entries after it and stops on the one nil |
| Startup.PagedRestartsLikeFlat | dns/paged_dns_store.go:435-564 | both stores, restarted from their own snapshots on the same log, hold the same records |
| Serving.ServingCommitsRange | dns/paged_dns_store.go:453-510 | the serving loop commits every proposal of a range, each with its own index, and takes all messages |
| Serving.ServingLoadsOnNil | dns/paged_dns_store.go:470-486 | on a nil the serving loop goes on from the newest snapshot over the disk it then has, or ends when there is none |
| Serving.FlatServingLoadsOnNil | dns/dns_store.go:340-352 | the same for the in-memory store |
| Serving.RangeInRun | dns/paged_dns_store.go:435-510 | committing a range is delivering and applying its entries in a run |
| Serving.ServeRange | dns/paged_dns_store.go:435-510 | at any point of any run with any number of crashes, once a serving store has read what is sent for entries up to n, its view is the fold of the log up to n |
| LeaderSnapshot.InitialLoopEndsEarly | dns/dns_store.go:304-337 | on a leader snapshot before the end of replay, the initial loop ends with what was replayed so far |
| LeaderSnapshot.ServingLoopAfterEarlyEnd | dns/dns_store.go:304-387 | what the serving loop then leaves over any range: the newest snapshot, the leader's or one of the node's own, is loaded on the end-of-replay nil or never |
| LeaderSnapshot.RightBeforeSignalIff | dns/dns_store.go:304-387 | until that nil the store is right for every index if and only if the entries the leader's snapshot skipped leave no trace |
| LeaderSnapshot.RightAfterSignalIff | dns/dns_store.go:304-387 | after it, if and only if the entries missing from the loaded snapshot cannot be seen: those since the leader's, or for one of the node's own those the leader's skipped and those since it was taken |
| LeaderSnapshot.EarlyEndRightIff | dns/dns_store.go:304-387 | all the time, if and only if neither the entries the leader's snapshot skipped nor those after the loaded one leave a trace |
| LeaderSnapshot.OwnSnapshotLate | dns/raft.go:348-378 | the newest snapshot on that nil is the leader's unless the old log goes on for more than 10001 entries after it |
| LeaderSnapshot.EarlyEndLosesRecord | dns/dns_store.go:304-387 | a log that loses a record because the snapshot is never loaded, and one that loses it because the snapshot is loaded late |
| LeaderSnapshot.OwnSnapshotLosesRecord | dns/raft.go:348-378 | a log and batches where the leader's snapshot would have put the store right, but the node's own is loaded and a record is lost |
| LeaderSnapshot.RestartWithLeaderSnapshot | dns/raft.go:423-443 | a restarted raft node that gets a leader snapshot in replay, with any further batches and its own snapshots, sends exactly these messages, and both loops of the store leave exactly this |
| RecordCache.RecordCacheStore.AddCacheRecord | dns/dns_store.go:111-146 | the record is filed under its text without TTL, with the time of the add; the root name is not cached |
| RecordCache.RecordCacheStore.ListLive | dns/dns_store.go:200-225 | whatever the iteration order, live entries are listed once each with their remaining TTL and expired ones are deleted |
| RecordCache.RecordCacheStore.GetCacheRecords | dns/dns_store.go:200-225 | a lookup lists the live records of its name and type and prunes that name and type only; which these are in nanoseconds is in `CacheIsRecentAdds` and `PrunesExpired` |
| RecordCache.HistoryAgrees | dns/dns_store.go:111-225 | a present entry is the most recent add of its record; an absent one has expired since its last add |
| RecordCache.CacheAgreesWithHistory | dns/dns_store.go:111-225 | a lookup returns exactly the records whose most recent add is younger than its TTL, each once, with TTL minus age |
| RecordCache.CacheIsRecentAdds | dns/dns_store.go:200-225 | in nanoseconds: a lookup gives each record whose last add is less than its TTL ago and no other, with the whole seconds gone by taken off its TTL, and none twice |
| RecordCache.PrunesExpired | dns/dns_store.go:200-225 | a lookup deletes the entries of its name and type that are older than their TTL, and no other |
| RecordCache.PruningInvisible | dns/dns_store.go:200-225 | dropping expired entries changes no later answer |
| Chase.ChaseEndsIff | dns/dns.go:120-137 | a chase ends if and only if no name repeats, and then within as many steps as there are edges |
| Chase.SelfLoopNeverEnds | dns/dns.go:120-137 | a CNAME to itself never ends |
| Resolve.CnameToItselfLoops | dns/dns.go:120-137 | a log with one added CNAME record whose resolution never ends |
| Resolve.PopLeftmostLabel | dns/dns.go:19-29 | a first part, a dot and the second part make the name; the first part is empty exactly for an empty name, one without dots, or a leading dot, and then the second part is the name less that dot |
| Resolve.ChaseVisitsStore | dns/dns.go:120-137 | a chase that ends visits no more CNAME owners than the store has names |
| Resolve.ChainThenFinal | dns/dns.go:101-143 | the answer is the chain's CNAME records in order, then what the final name gives |
| Resolve.WildcardIsLongest | dns/dns.go:184-213 | the search gives all records at the longest ancestor whose wildcard has any, none exactly when no ancestor has |
| Resolve.AncestorFollowsDot | dns/dns.go:184-190 | the names tried are proper suffixes that follow a dot, from longest to shortest |
| AnswersFromLog.AncestorsExactly | dns/dns.go:184-190 | the names tried are exactly what follows a dot before which no label is empty |
| Resolve.Provenance | dns/dns.go:101-214 | every uncached answer is a CNAME on the chase, a record of the asked type at its end, or a wildcard record there with its owner rewritten |
| Resolve.PositiveAnswer | dns/dns.go:101-214 | a question is handled if and only if the reply gets an answer beyond the CNAMEs of the chase, and each such answer is stored at the final name, live in its cache, or at a wildcard above it; never with a delegation |
| Resolve.StoredAnswerWasAdded | dns/dns_store.go:273-286 | a stored answer is a record of the name and type that the log added and has not deleted since |
| AnswersFromLog.AnswersAreAdds | dns/dns.go:108-115 | an exact match gives, in log order, one record for each entry that added one to the name and type with no delete after it |
| AnswersFromLog.GoodRecordsLaw | dns/dns.go:108-115 | every string that parses gives its record, as often and in the order it is stored; no other string gives any |
| AnswersFromLog.ParsedEntriesLaw | dns/dns.go:33-42 | likewise for delegations, where a blank string takes an empty place |
| AnswersFromLog.GlueOfLaw | dns/dns.go:160-172 | every name server of a delegation adds its glue, in order |
| AnswersFromLog.WildcardFromLog | dns/dns.go:184-213 | the search gives all records added and kept at `*.` and the first ancestor that has any |
| AnswersFromLog.GlueFromLog | dns/dns_store.go:155-198 | glue is all addresses added and kept for the server, else those of the wildcard search |
| AnswersFromLog.ChaseFromLog | dns/dns.go:120-137 | a chase goes on exactly from a name without records of the asked type whose first kept CNAME is one, to its lower-cased target |
| AnswersFromLog.ChainFromLog | dns/dns.go:120-137 | each CNAME the reply starts with is the first one kept at its place on the chase |
| AnswersFromLog.FinalFromLog | dns/dns.go:140-213 | at the final name: all kept records; else, after a CNAME not followed, the young cached ones; else all name servers with glue; else the wildcard records under the name asked for |
| AnswersFromLog.QuestionAt | dns/dns.go:64-82 | each question is resolved with the cache the one before it left |
| AnswersFromLog.UnhandledPositions | dns/dns.go:70-77 | the questions left for recursion are those not handled, in order |
| AnswersFromLog.ReplySnoc | dns/dns.go:70-77 | each question adds its part to each section of the reply |
| Resolve.FinalAnswerTyped | dns/dns.go:101-214 | every final answer has the asked type; one from the cache is an added record with the TTL it has left |
| Resolve.GlueSource | dns/dns_store.go:155-198 | every glue record is an address of a name server of the delegation, or of a wildcard above it when it has none |
| Resolve.ListingsAgree | dns/dns_store.go:200-225 | two visits of the same cache entries in different orders give the same records |
| Resolve.SameReplies | dns/dns.go:64-97 | equal resolutions give equal replies up to the order of cached records |
| FlatQuery.StringsToRRs | dns/dns.go:33-42 | strings that fail to parse are dropped, blank ones leave an empty place, order is kept |
| FlatQuery.SearchWildcard | dns/dns.go:184-213 | popping labels finds the wildcard records and terminates |
| FlatQuery.GetGlueRecords | dns/dns_store.go:155-198 | glue is the exact addresses, else those of the wildcard search |
| FlatQuery.HandleSingleQuestion | dns/dns.go:101-214 | for a chase that ends, the reply is only extended, by exactly what resolution means, and the cache is pruned accordingly; true is returned if and only if a final answer was added; if all strings of the type parse, the answer is all their records in order |
| FlatQuery.ProcessDNSQuery | dns/dns.go:64-82 | the whole reply and the questions left for recursion |
| PagedQuery.GetGlueRecords | dns/paged_dns_store.go:285-329 | glue is that of the view although lookups swap pages; the store only looks names up |
| PagedQuery.PagedHandleSingleQuestion | dns/paged_dns.go:67-181 | the same result as on the view, all records of an exact match included; the object graph stays valid, the view unchanged, and the store only looks names up |
| PagedQuery.PagedProcessDNSQuery | dns/paged_dns.go:30-48 | the same for a whole query |
| PagedQuery.QueryInRun | dns/paged_dns.go:30-48 | a query at any time of any run, crashes and recoveries included, is answered from the fold of the log, and its effect on pages, list and disk is a number of lookup steps of that run |
| PagedQuery.PagedAnswersLikeFlat | dns/paged_dns.go:30-181 | both stores leave over the same questions and give the same name servers and glue, the same answers as a multiset, and the same cache |
| DirectQuery.BatchQuestions | dns/hash_server/hash_server.go:639-659 | one batch for each token some question is located at, holding exactly those questions in order |
| DirectQuery.LocatedPositions | dns/hash_server/hash_server.go:639-659 | a batch is the questions located at its token in the order asked, none missing |
| DirectQuery.BatchesPartition | dns/hash_server/hash_server.go:639-659 | the batches in any order are the questions asked, none lost or repeated |
| DirectQuery.SendUntilSuccess | dns/hash_server/hash_server.go:354-372 | the first reply in order is returned, failure when all fail, nothing exactly when there is no server |
| DirectQuery.ValidateReply | dns/hash_server/hash_server.go:399-430 | a reply passes if and only if every question has an answer of its name and its type |
| DirectQuery.TryDirectQuery | dns/hash_server/hash_server.go:375-448 | for every order of completion, success if and only if every batch is answered; each merged section is made of the good replies, and holds a record as often as they hold it in that section |
| DirectQuery.MergeIndependentOfOrder | dns/hash_server/hash_server.go:375-448 | each section of the merged reply holds the same records for two completion orders |
| DirectQuery.MergedCounts | dns/hash_server/hash_server.go:430-441 | a section of the merged reply holds a record as often as the replies of answered batches hold it there, all together |
| DirectQuery.MergedAnswersAll | dns/hash_server/hash_server.go:375-448 | after success every question of every batch is answered in the merged reply |
| DirectQuery.ServeQuestions | dns/hash_server/hash_server.go:639-665 | success if and only if every cluster asked gives a first reply that answers its questions, and then every question asked has an answer; a crash if and only if some question is located at a cluster with an empty server list |
| Migration.Source.GetRecord | dns/httpapi.go:213-286 | the end marker past the last name; index 0 appends the stored names once each; otherwise, if the named domain moves, each string as often as it is stored there, else nothing; a crash for an index without a name |
| Migration.RetrieveRR | dns/dns.go:336-384 | n+1 requests, after which the proposed records are, as a multiset, those of the first n names collected that move; with nothing collected before, each string as often as it is stored under a name that moves |
| Migration.MigrationExact | dns/httpapi.go:213-286 | with nothing collected before, or with all names now stored at the head of what was, these are exactly the stored records that move, for any iteration order |
| Migration.CountMoving | dns/httpapi.go:264-273 | fetching each name once gives a string as often as there are a moving name, a type and a position where it is stored |
| Migration.ExactIff | dns/httpapi.go:213-255 | for every iteration order each stored name is served once, if and only if nothing was collected before or the old list begins with all names now stored |
| Migration.SecondMigrationMisses | dns/httpapi.go:213-255 | after one name replaced another, a second migration is served the old name and not the new one |
| Migration.SecondMigrationLosesRecords | dns/dns.go:336-384 | a fetch after an earlier migration that does not propose a stored record that moves |

## Left out

- Raft elections and replication, the encoding of the write-ahead log and the internals of the log storage: one agreed log is assumed, entries are durable before they are published, and the storage refuses a snapshot or compaction only as its documented errors say.
- Page files are replaced atomically here and never fail to be read or written; the program removes the old file before it renames the new one.
- Encoding of proposals, pages and snapshots, so neither undecodable proposals nor proposal types other than add and delete, both fatal in the program.
- Locks and data races; a query, an apply and a snapshot are each one step, apart from the gap between delivery and apply.
- Snapshots while the store is still being initialised: the snapshot closure holds a nil store until then (dns/main.go:51-62).
- Leader snapshots inside the runs of `Recovery`: their effect on a store is `InstallExactIff`, on the raft indices `PublishSnapshot` and `HandleReady`.
- A leader snapshot saved before the restarted store first looks for one, which it then loads as its own: in `LeaderSnapshot` the store has loaded its own snapshot when the leader's arrives.
- LeaderSnapshot.RestartWithLeaderSnapshot: when the node takes a snapshot the store has read all that was sent; a snapshot that lags behind is in `ServingLoopAfterEarlyEnd` and the exact conditions, whose own snapshot may hold the store at any earlier index.
- LeaderSnapshot.RightAfterSignalIff: in-memory store only. The paged store's loop takes the same branches, but what a late snapshot leaves there also depends on the disk, which is `InstallExactIff`.
- The configuration state and the transport's peers; only the sequence of configuration changes is kept.
- The linked list of the container library is a sequence of node objects removed by identity.
- Recursive forwarding to another resolver, and the whisper of cached records to the other replicas.
- One clock value per query; the program reads the clock for every cached record.
- Cache ages of 2^32 seconds or more, which wrap in the program: `HistoryAgrees` and what follows from it require smaller ages, `Age` itself wraps.
- HTTP handlers other than the record request, the UDP servers and zone files.
- Record syntax and printing: the parser and printer are arbitrary functions. Only the cache history and what is said of answers from the log assume that parsing what was printed gives the record back.
- The location of a name on the consistent-hash ring is an arbitrary function, so nothing is said about which names move when clusters are added.
- The end-to-end migration, which cannot complete as coded: it adds a cluster while writes are disabled, and that request is then rejected (dns/hash_server/hash_server.go:271-275). Garbage collection is a stub.
- HTTP and JSON errors of the fetch loop; the source's store does not change during a fetch, and all its strings are records.
- The broadcast fallback of the front server, its cache and its preference order among servers.
- The earlier copy of the store under `example/`, benchmarks and scripts.
