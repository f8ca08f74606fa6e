# Skylet core protocols in Dafny

Skylet is a plugin runtime written in Rust. This project models the parts of it that carry state or
promise something across calls, and proves what they keep.

* **Audit log replication** (`Replication.dfy`, `AtLeastOnce.dfy`, `ReplicationProgress.dfy`, `Resending.dfy`,
  `ExactlyOnce.dfy`, `ReplicationLoops.dfy`, `RetryDelay.dfy`): the background replicator that copies the log to a
  remote store, as a state machine over appended text and newlines, reads that stop at a newline or wherever the file
  ends, uploads that succeed, fail or half arrive, checkpoint writes that complete, get lost or are cut short, and
  restarts. The offset counts uploaded events but is used as a line index; the proofs show what that costs and keeps.
* **Audit queries and storage** (`AuditModel.dfy`, `AuditBackends.dfy`, `QueryLaws.dfy`, `FilterLogic.dfy`,
  `Aggregation.dfy`, `Encryption.dfy`, `Hex.dfy`): the bounded in-memory log, the streaming file reader, nested filters, time buckets,
  statistics, and encryption at rest with key rotation.
* **Service discovery** (`Discovery.dfy`, `DiscoveryRaces.dfy`, `DiscoveryService.dfy`): a registry with two secondary indexes, sequentially as a class and
  concurrently as separately locked steps.
* **Cluster registry** (`Clustering.dfy`): version vectors and last-write-wins merging.
* **Plugin dependencies** (`DependencyGraph.dfy`, `SemVer.dfy`): cycle detection, topological sorting, transitive
  closure, version precedence and constraints.
* **Smaller cores** (`EventBus.dfy`, `AbiVersion.dfy`, `StateBlob.dfy`, `Backoff.dfy`, with `Decimal.dfy`,
  `Powers.dfy` and `Wrappers.dfy` beneath them).

Objects whose methods update fields are classes whose methods are specified by functions on the old state; loops are
methods with invariants; protocols with interleavings are step functions over values, with theorems about all runs.

## Where the code does less than it says

Each of these is a lemma, and where a promised property fails there is also the exact condition under which it holds.

* Replication is not always at least once. A reader that meets the end of the file inside a line returns what there is,
  and may return the rest as another line. So an event can be passed without being collected
  (`AtLeastOnce.HalfLineIsLost`), and two writers sharing a line can push the offset past the end of the file, so that
  the next line is skipped (`AtLeastOnce.DoubledLineSkipsNext`). Exactly: nothing is lost in any state of a run if and
  only if every acknowledged batch passes a check of the lines it was not able to read in one piece
  (`AtLeastOnce.AtLeastOnceIff`, `AtLeastOnce.AckIsDurableIff`); runs in which a read continues inside a line only to
  consume its newline always do (`AtLeastOnce.AtLeastOnceFromStart`).
* The checkpoint file can be ahead of memory: exactly after a restart that could not read a file that names some
  progress (`Replication.CheckpointAheadIff`, `Replication.CheckpointAheadIsReachable`). No event is lost by it.
* "Deduplication" holds within a batch only. From a fresh start nothing is uploaded twice if and only if the log is
  distinct events followed by lines that do not parse (`Resending.NothingTwiceIff`); an event behind `n` unparseable
  lines is uploaded `n + 1` times (`Resending.ResentPerSkippedLine`).
* The retry delay is doubled in 64-bit arithmetic and reset only by success: it wraps after 54 retries in a row and is
  zero from the 61st on (`RetryDelay.BackoffIsExponentialUpTo54`).
* `topological_sort` is documented to fail on cycles. It also fails on a missing dependency, optional or not, on a
  dependency listed twice, and on edges left behind by a plugin added twice (`DependencyGraph.TopologicalSort`,
  `DependencyGraph.MissingOptionalDependency`).
* The cluster merge ignores an update that strictly dominates what a node holds, and resolves equal timestamps
  differently on the two sides (`Clustering.OrderedVersionsAreIgnored`, `Clustering.ExchangeAgreesIff`). Every order of
  delivery agrees if and only if one version is later than, and in conflict with, every other
  (`Clustering.EveryOrderAgreesIff`). Two spellings of the same counters that differ in stored zeros count as a
  conflict (`Clustering.ConflictMeans`).
* An `unregister` still in flight when the same name is registered again can hide the new service
  (`DiscoveryRaces.LateUnregisterHidesService`). A registration can end up hidden if and only if, when it begins, a
  `clear` has not reached the interface index or an `unregister` of the name still has to take one of the new
  service's own entries out (`DiscoveryRaces.HiddenIff`).
* `^1.2.3` is documented as `>=1.2.3, <2.0.0`; pre-releases of 2.0.0 are in that range and are not matched
  (`SemVer.CaretIsAlmostTheRange`).
* Writing to an encrypted log appends plain text, after which it can no longer be read or re-keyed
  (`Encryption.PlainWriteBreaksReading`); reading gives the original events if and only if there was no such write
  (`Encryption.RoundTripIff`).

## Model

| member | source | states |
|---|---|---|
| Replication.SavedIsSmaller | abi/src/audit.rs:1609-1663 | A checkpoint write, complete, lost or cut off after any number of digits, never makes the file claim more than the new offset unless it left the file as it was |
| Replication.CheckpointAheadIff | abi/src/audit.rs:1609-1663 | A checkpoint that is not ahead of memory gets ahead exactly by a restart that cannot read it, if it names any progress |
| Replication.CheckpointNeverAhead | abi/src/audit.rs:1609-1663 | Over every run, the saved offset never exceeds the offset in memory if and only if no restart fails to read a checkpoint that names progress |
| Replication.CheckpointAheadIsReachable | abi/src/audit.rs:1609-1663 | A run from a fresh start that ends with offset 0 in memory and 1 in the file |
| Replication.RestartResumes | abi/src/audit.rs:1662-1663 | After a complete checkpoint write a restart resumes at exactly the offset reached |
| AtLeastOnce.DurableIff | abi/src/audit.rs:1629-1663 | The invariant is what is wanted: it holds exactly when every event below the offset and the saved offset is uploaded now and after whatever is appended |
| AtLeastOnce.LossFollows | abi/src/audit.rs:1629-1663 | Whenever it fails, at most one more newline and one more text lose an event |
| AtLeastOnce.DurableIsBounded | abi/src/audit.rs:1609-1663 | It implies that neither offset is past the end of the file |
| AtLeastOnce.TrackingStep | abi/src/audit.rs:1629-1647 | In every run, whatever the interleaving, every line the scan has passed was seen by it, unless a read continued inside that line |
| AtLeastOnce.BatchesHaveNoRepeats | abi/src/audit.rs:1634-1644 | In every state of every run no batch holds an id twice |
| AtLeastOnce.AckIsDurableIff | abi/src/audit.rs:1629-1663 | An acknowledged batch keeps the invariant if and only if the lines it makes the offset pass exist, cannot become new events, and hold no event missed where a read continued inside a line |
| AtLeastOnce.AckIsCoveredIff | abi/src/audit.rs:1629-1663 | The same for the lines as they are now: everything below the new offset is uploaded if and only if no event was missed where a read continued inside a line or never came |
| AtLeastOnce.OtherStepsAreDurable | abi/src/audit.rs:1609-1683 | No append, read, failed upload or restart loses anything |
| AtLeastOnce.AtLeastOnceIff | abi/src/audit.rs:1609-1683 | Over every run, replication is at least once in every state if and only if every acknowledged batch passes that check |
| AtLeastOnce.ReplicatingStep | abi/src/audit.rs:1620-1683 | Every step keeps the full invariant, provided a read continues inside a line only to consume its newline |
| AtLeastOnce.AtLeastOnceFromStart | abi/src/audit.rs:1609-1683 | From a fresh start with any log, in every state of every such run, neither offset is past the end of the file and every event below both has been uploaded, through failures, ambiguous uploads, lost or cut checkpoints and restarts |
| AtLeastOnce.HalfLineIsLost | abi/src/audit.rs:1629-1663 | For every event and every place to cut it, a run that reads the line in two pieces and loses the event |
| AtLeastOnce.DoubledLineSkipsNext | abi/src/audit.rs:1629-1663 | A run in which two events share a line, the offset passes the end of the file, and the next event is lost |
| ReplicationProgress.BatchesAreBounded | abi/src/audit.rs:1656-1683 | Without appends and restarts every acknowledged batch raises the offset, so at most lines minus offset batches succeed |
| ReplicationProgress.EmptyScanMeansEverything | abi/src/audit.rs:1650-1654 | A scan that finds nothing proves that every event in the file has been uploaded |
| ReplicationProgress.EmptyScanComes | abi/src/audit.rs:1619-1687 | Every run without appends, failures and restarts comes to such a scan within a bounded number of steps |
| ReplicationProgress.CatchesUp | abi/src/audit.rs:1619-1687 | After every such run longer than the bound every event in the file has been uploaded |
| ReplicationProgress.SmoothRuns | abi/src/audit.rs:1619-1687 | The replicator is never stuck: there are such runs of every length |
| ReplicationProgress.SettledIsWhole | abi/src/audit.rs:1629-1647 | On a file at rest no read continues inside a line |
| Resending.ResentAtMost | abi/src/audit.rs:1629-1662 | In every such run an event behind n unparseable lines has been uploaded as often as the offset says, at most n + 1 times |
| Resending.ResentPerSkippedLine | abi/src/audit.rs:1629-1662 | And there is a run that uploads it n + 1 times |
| Resending.NothingTwiceIff | abi/src/audit.rs:1629-1662 | In every such run from a fresh start that has caught up, nothing was uploaded twice if and only if the log is distinct events followed by lines that do not parse |
| ReplicationLoops.CollectBatch | abi/src/audit.rs:1620-1648 | The scanning loop is a run of single reads; from the offset on it collects the first occurrence of each event, in order, up to a thousand, and all of them if there are fewer |
| ReplicationLoops.SixAttempts | abi/src/audit.rs:1656-1683 | After a scan exactly up to six failed attempts are possible; the sixth gives up, with offset and checkpoint unmoved |
| ReplicationLoops.UploadWithRetries | abi/src/audit.rs:1656-1683 | The upload loop is a run that ends the scan and makes at most six attempts, stopping at the first that succeeds, and leaves the offset, checkpoint and delay those steps leave |
| ExactlyOnce.ExactlyOnce | abi/src/audit.rs:1620-1666 | If events with new ids are written on lines of their own, failed uploads have no effect and restarts find the offset they left, the uploads are exactly the log up to the offset, once each, in order |
| RetryDelay.DelayAfter | abi/src/audit.rs:1664-1681 | Success and restart set the delay back to one second, a retry doubles it in 64 bits, and nothing else changes it |
| RetryDelay.BackoffLaw | abi/src/audit.rs:1607-1671 | In every run the delay is 1000 times two to the number of retries since the last success, modulo 2^64 |
| RetryDelay.BackoffIsExponentialUpTo54 | abi/src/audit.rs:1667-1671 | It equals the unbounded value exactly up to 54 retries in a row and is zero from the 61st on |
| Decimal.ParsePrint | abi/src/audit.rs:1612-1663 | Reading back a printed number gives it, or nothing if it is above the maximum |
| Decimal.ParseIff | abi/src/audit.rs:1613-1613 | What parses and to what: digits, with or without one plus sign, up to the maximum |
| Decimal.ValueOfConcat | abi/src/audit.rs:1613-1663 | The most significant digit comes first |
| Decimal.PrefixIsSmaller | abi/src/audit.rs:1663-1663 | Digits cut off at the end never make a number larger |
| Discovery.FilterMeaning | abi/src/service_discovery.rs:270-317 | When a descriptor matches, and when a bound that does not parse is an error |
| Discovery.SelectMeaning | abi/src/service_discovery.rs:257-266 | The result of the filter loop independently of order: an error exactly when a candidate causes one, always the same one, otherwise every hit as often as it is named |
| DiscoveryService.ApplyFilter | abi/src/service_discovery.rs:256-266 | The loop, with its early return on error, computes that result |
| Discovery.IndexRefinesScan | abi/src/service_discovery.rs:239-317 | Discovery through an exact index has the same outcome, error and set of services as a scan over all services, and the same multiset when no descriptor repeats a capability |
| Discovery.RegisteredStaysVisible | abi/src/service_discovery.rs:164-230 | In every interleaving a registered service stays registered and, once its register has returned, listed in both indexes, as long as nothing that would take its entries out was in flight when it began and no removal of it starts |
| Discovery.RegisteredIsFound | abi/src/service_discovery.rs:164-267 | Discovery by interface or capability then succeeds and returns it for every filter it matches, in every later state |
| Discovery.DiscoveryIsSound | abi/src/service_discovery.rs:239-267 | In every state of every interleaving, whatever discovery returns is registered and matches |
| DiscoveryRaces.LateUnregisterHidesService | abi/src/service_discovery.rs:203-230 | For every descriptor, a run after which the service is registered, nothing is in flight, and the interface index does not list it |
| DiscoveryRaces.DangerHides | abi/src/service_discovery.rs:164-230 | Whatever endangers a registration when it begins can hide it: a continuation that does, without starting any removal |
| DiscoveryRaces.HiddenIff | abi/src/service_discovery.rs:164-443 | A successful register can end up returned and missing from an index, without any removal starting after it, if and only if some operation in flight still has to take one of its entries out |
| Discovery.OrderlyStep | abi/src/service_discovery.rs:164-230 | With operations on one name not overlapping and clear overlapping nothing, every step keeps the indexes exact for idle names and exactly half-updated for busy ones |
| Discovery.QuietMeansExact | abi/src/service_discovery.rs:164-443 | After any such run, whenever nothing is in flight, both indexes are exact |
| Discovery.RegisteredIsExact | abi/src/service_discovery.rs:164-198 | A registration on its own keeps the indexes exact |
| Discovery.UnregisteredIsExact | abi/src/service_discovery.rs:203-230 | So does a removal |
| DiscoveryService.RegisteredKeeps | abi/src/service_discovery.rs:164-198 | A registration keeps both indexes exact and every entry in order of registration |
| DiscoveryService.UnregisteredKeeps | abi/src/service_discovery.rs:203-230 | So does a removal |
| DiscoveryService.SelectIsSorted | abi/src/service_discovery.rs:257-266 | The filter loop keeps the order of the names it is given |
| DiscoveryService.ServiceDiscovery.Register | abi/src/service_discovery.rs:164-198 | Outcome, error and whole new state; indexes stay exact and in order of registration |
| DiscoveryService.ServiceDiscovery.Unregister | abi/src/service_discovery.rs:203-230 | Returns whether the name was registered; whole new state; indexes stay exact and in order of registration |
| DiscoveryService.ServiceDiscovery.Clear | abi/src/service_discovery.rs:433-443 | Empties the registry and leaves the indexes exact |
| DiscoveryService.ServiceDiscovery.Discover | abi/src/service_discovery.rs:239-267 | Fails exactly when some registered service makes the filter fail, with the one error a filter can cause; otherwise returns exactly the registered services that match, each once, or by capability as often as it lists that capability, and by interface or capability in order of registration |
| Clustering.VersionVectorDominates | abi/src/clustering.rs:431-454 | The early-exit loop decides dominance, with missing counters read as zero, for any order of the keys |
| Clustering.DominanceIsAStrictOrder | abi/src/clustering.rs:426-454 | Dominance is irreflexive, asymmetric and transitive |
| Clustering.DetectVersionConflict | abi/src/clustering.rs:387-399 | Decides the code's notion of conflict |
| Clustering.ConflictMeans | abi/src/clustering.rs:387-399 | A conflict is concurrency, or equal counters spelled with different stored zeros; it is symmetric |
| Clustering.ExactlyOneRelation | abi/src/clustering.rs:387-454 | Without stored zeros exactly one of local dominates, remote dominates, equal, conflict holds, and conflict is concurrency |
| Clustering.ServiceCluster.SyncFromRemoteServices | abi/src/clustering.rs:331-361 | The loop merges the batch entry by entry, in order |
| Clustering.SyncKeeps | abi/src/clustering.rs:331-361 | Over any sync no id disappears, no timestamp decreases, and every stored service was local or received |
| Clustering.SyncOneIff | abi/src/clustering.rs:338-424 | One entry for a known id is stored exactly if it is in conflict with the stored one and not older, or equals it; otherwise the stored one stays |
| Clustering.MergeAllConcat | abi/src/clustering.rs:331-361 | Syncing in batches is syncing the concatenation |
| Clustering.SyncIgnoresOrder | abi/src/clustering.rs:331-361 | A batch with one entry per id has the same effect in any order |
| Clustering.SyncIsIdempotent | abi/src/clustering.rs:331-361 | Receiving such a batch again changes nothing |
| Clustering.HoldsTheLatest | abi/src/clustering.rs:414-424 | If the versions of an id are pairwise concurrent with distinct timestamps, a node holds the latest it knows of, after any sequence of them |
| Clustering.HoldsLastOfLatest | abi/src/clustering.rs:338-424 | Among pairwise conflicting versions the one held is the last received of those with the greatest timestamp, so a tie goes to the newcomer |
| Clustering.Converges | abi/src/clustering.rs:331-424 | Two nodes that know the same such versions agree, whatever the order, repetition or batching |
| Clustering.ExchangeAgreesIff | abi/src/clustering.rs:331-424 | Two nodes that exchange one version each agree if and only if the versions are equal, or in conflict with different timestamps |
| Clustering.EveryOrderAgreesIff | abi/src/clustering.rs:331-424 | For any set of versions of one service, every order and repetition of delivery agrees if and only if one version is later than, and in conflict with, every other |
| Clustering.OrderedVersionsAreIgnored | abi/src/clustering.rs:338-353 | A version that dominates or is dominated by everything received is never replaced |
| DependencyGraph.PluginGraph.AddPlugin | abi/src/dependencies/graph.rs:149-166 | Adds the node and its edges and keeps the reverse index in step with the edges |
| DependencyGraph.CycleFinder.Visit | abi/src/dependencies/graph.rs:234-262 | The depth-first search restores its stack and path, marks the plugin visited, and reports only real cycles; the finishing order is topological but for the dependencies that close a reported cycle |
| DependencyGraph.CycleFinder.Report | abi/src/dependencies/graph.rs:251-256 | The path from the repeated plugin on is reported, a cycle closed by the dependency just met |
| DependencyGraph.DetectCycles | abi/src/dependencies/graph.rs:213-232 | Every reported cycle is one, every cycle of the graph contains the dependency that closes a reported one, and none is reported exactly when there is none |
| DependencyGraph.MissingMeans | abi/src/dependencies/graph.rs:281-316 | A plugin's remaining degree is zero exactly when all its targets are done and none of its edges is repeated |
| DependencyGraph.SortNext | abi/src/dependencies/graph.rs:302-316 | One turn of Kahn's loop keeps the degrees, the queue and the order right, and never decrements below zero |
| DependencyGraph.DrainedMeansSorted | abi/src/dependencies/graph.rs:318-323 | When the queue runs dry, every plugin was sorted if and only if every dependency is present, no edge is repeated and no chain of edges is cyclic |
| DependencyGraph.TopologicalSort | abi/src/dependencies/graph.rs:272-326 | Succeeds if and only if that condition holds, with every plugin once and its dependencies before it; says which failures name a real cycle |
| DependencyGraph.MissingOptionalDependency | abi/src/dependencies/graph.rs:281-323 | A graph without any cycle that is refused because one optional dependency is missing |
| DependencyGraph.TransitiveDependencies | abi/src/dependencies/graph.rs:344-367 | Returns exactly the plugins reached by a chain of one or more dependencies |
| SemVer.PrecedenceIsTotal | abi/src/dependencies/version.rs:141-341 | Precedence is a total order on versions up to build metadata |
| SemVer.TextComesFirst | abi/src/dependencies/version.rs:145-150 | Words are ordered by their character codes, a prefix first |
| SemVer.IdentifierComesFirst | abi/src/dependencies/version.rs:141-152 | Numbers by value, words by their characters, every number before every word |
| SemVer.CoreDecidesFirst | abi/src/dependencies/version.rs:318-331 | Major, minor and patch decide in that order, and numeric identifiers come before words |
| SemVer.PrereleaseRules | abi/src/dependencies/version.rs:160-341 | A pre-release comes before its release, and a list of identifiers before its extensions |
| SemVer.CaretIsAlmostTheRange | abi/src/dependencies/constraints.rs:140-161 | A caret constraint is the documented range minus the pre-releases of its upper bound |
| SemVer.TildeIsAlmostTheRange | abi/src/dependencies/constraints.rs:163-173 | The same for a tilde constraint |
| SemVer.ConstraintsAreConvex | abi/src/dependencies/constraints.rs:140-173 | Whatever lies between two matching versions matches |
| AuditBackends.MatchingMeans | abi/src/audit.rs:1051-1055 | Filtering keeps every matching event as often as it occurs, and nothing else |
| QueryLaws.SeverityBound | abi/src/audit.rs:676-727 | An event is found by a bound of its own severity and not by the next one up; raising the event or lowering the bound keeps it found |
| QueryLaws.SeverityIsASuffix | abi/src/audit.rs:676-727 | A severity bound finds that severity and those listed after it in info, warning, error, critical |
| QueryLaws.SeveritySplits | abi/src/audit.rs:676-727 | What a bound finds is what the next one finds, and the events of exactly that severity |
| QueryLaws.TimeRangeIsClosed | abi/src/audit.rs:676-727 | Both ends of a time range are included, and nothing outside is found |
| QueryLaws.AdjacentRangesPartition | abi/src/audit.rs:676-727 | Two adjacent time ranges partition what the whole range finds |
| QueryLaws.PluginFilterMeans | abi/src/audit.rs:676-727 | A plugin filter finds exactly the names that contain the given text |
| QueryLaws.OwnValueFinds | abi/src/audit.rs:676-727 | By type, stage or recovery action an event is found by its own value and by no other |
| QueryLaws.AskingMoreFindsLess | abi/src/audit.rs:676-727 | Setting more fields, or narrowing a bound, finds a sub-multiset |
| AuditBackends.MatchingConcat | abi/src/audit.rs:1051-1055 | Matches keep the order of the log |
| AuditBackends.SinceMeans | abi/src/audit.rs:1074-1079 | A purge keeps every event that is recent enough, and nothing else |
| AuditBackends.SinceConcat | abi/src/audit.rs:1074-1079 | So do the events a purge keeps |
| AuditBackends.PageMeans | abi/src/audit.rs:1057-1064 | The i-th event of a page is the (offset + i)-th match, and the page stops at the limit or at the end |
| AuditBackends.ReadIsPage | abi/src/audit.rs:1918-1984 | Whenever the streaming read succeeds it returns the page of all matching events in file order, despite the early stop and the two-place offset handling |
| AuditBackends.ReadFails | abi/src/audit.rs:1929-1973 | It fails only on a line that does not deserialize, more matches than the limit, or more than twice as many events |
| AuditBackends.SmallLogIsRead | abi/src/audit.rs:1918-1984 | An intact log with no more events than the limit is always read |
| AuditBackends.ReadIff | abi/src/audit.rs:1918-1984 | For every filter, limit and offset: a read succeeds if and only if the lines before the one that completes the page deserialize and stay within both limits, matches skipped by the offset being free |
| AuditBackends.UnpagedReadIff | abi/src/audit.rs:1918-1984 | Without paging, the exact condition under which a read succeeds |
| AuditBackends.FileAuditLog.Read | abi/src/audit.rs:1918-1984 | The loop computes that read |
| AuditBackends.FileAuditLog.Count | abi/src/audit.rs:1986-2019 | Succeeds exactly on intact logs of at most ten times the limit, with the number of matches |
| AuditBackends.FileAuditLog.PurgeBefore | abi/src/audit.rs:2021-2059 | Rewrites the file with the records kept and counts the others, or fails and leaves it alone if a line does not deserialize |
| AuditBackends.FileAuditLog.Write | abi/src/audit.rs:1899-1916 | Appends one record |
| AuditBackends.KeptEvents | abi/src/audit.rs:2021-2059 | The purged file holds exactly the purged list of events |
| AuditBackends.InMemoryAuditLog.Write | abi/src/audit.rs:1033-1046 | Appends and drops the oldest beyond the limit |
| AuditBackends.InMemoryAuditLog.Read | abi/src/audit.rs:1048-1067 | Returns the page of the matching events |
| AuditBackends.InMemoryAuditLog.Count | abi/src/audit.rs:1069-1072 | Counts the matching events |
| AuditBackends.InMemoryAuditLog.PurgeBefore | abi/src/audit.rs:1074-1079 | Keeps the recent events and returns how many were dropped |
| AuditBackends.MemoryHoldsNewest | abi/src/audit.rs:1033-1046 | After any number of writes the log is the end of what was written: all of it, or as many of the last as the limit allows |
| AuditBackends.BackendsAgree | abi/src/audit.rs:1033-2059 | Over any run of writes, reads, counts and purges with no more writes than either limit, both backends give equal replies, for every filter, limit and offset |
| AuditBackends.OneWriteTooMany | abi/src/audit.rs:1040-1043 | One write beyond the memory limit is enough for the replies to differ |
| FilterLogic.Evaluate | abi/src/audit.rs:952-983 | The evaluation, with its all-AND and all-OR shortcuts and its loop, equals one left fold at every level of nesting; an empty list matches everything |
| FilterLogic.EvaluateMixed | abi/src/audit.rs:968-979 | The loop of the mixed case computes the fold |
| FilterLogic.AllAndIsFold | abi/src/audit.rs:962-963 | The all-AND shortcut is the fold |
| FilterLogic.AllOrIsFold | abi/src/audit.rs:964-965 | The all-OR shortcut is the fold |
| FilterLogic.ListsOfFilters | abi/src/audit.rs:954-955 | The empty AND finds everything and the empty OR nothing; one filter is itself; lists join by their own operator |
| FilterLogic.ComplexOfOne | abi/src/audit.rs:954-965 | A condition list of single filters all joined by AND means the AND list, by OR the OR list |
| FilterLogic.FirstOperatorIsIgnored | abi/src/audit.rs:968-979 | The first operator, which decides the shortcut, never changes the result |
| FilterLogic.FailedAndWipesOut | abi/src/audit.rs:968-979 | There is no precedence: a failed condition joined by AND discards everything before it |
| Aggregation.AggregateEvents | abi/src/audit.rs:911-924 | One bucket per occupied period, strictly ascending, each with the exact count per severity |
| Aggregation.BucketContains | abi/src/audit.rs:906-908 | The bucket time is the one multiple of the size whose period contains the timestamp |
| Aggregation.EventHasOneBucket | abi/src/audit.rs:906-924 | Every event lies in the period of exactly one bucket |
| Aggregation.FromEvents | abi/src/audit.rs:484-539 | Totals by severity and type, extremes, and number of distinct plugins |
| Aggregation.ExtremesMean | abi/src/audit.rs:503-513 | The minimum and maximum timestamps are attained and bound every event |
| Aggregation.PluginsMean | abi/src/audit.rs:515-515 | The set of plugins holds exactly those that occur in some event |
| Aggregation.TypeCountsMean | abi/src/audit.rs:517-518 | Each type is counted as often as it occurs, and no other is listed |
| Aggregation.TypesAddUp | abi/src/audit.rs:517-518 | The counts by type add up to the number of events |
| Aggregation.SeverityCountMeans | abi/src/audit.rs:496-501 | Each severity is counted as often as it occurs |
| Aggregation.SeveritiesAddUp | abi/src/audit.rs:496-501 | So do the counts by severity |
| Aggregation.BucketsSumToStatistics | abi/src/audit.rs:484-924 | Summed over the buckets, each severity is counted as the statistics of the same events count it |
| Aggregation.AggregationOfConcat | abi/src/audit.rs:911-924 | Aggregating a concatenation is the pointwise sum of the aggregations |
| Hex.DecodeEncode | abi/src/audit.rs:1339-1340 | Decoding undoes encoding, and an encoding contains no colon |
| Hex.EncodeDecode | abi/src/audit.rs:1399-1406 | Whatever decodes is, up to letter case, the encoding of what it decodes to |
| Hex.EncodeAt | abi/src/audit.rs:1339-1340 | Two lower-case digits per byte, the high half first |
| Encryption.DecryptUndoesEncrypt | abi/src/audit.rs:1337-1445 | Splitting at the first colon, decoding and trying the keys in order opens an encrypted line under any key list that contains its key |
| Encryption.EncryptedLog.EncryptAtRest | abi/src/audit.rs:1289-1356 | Whole new state and count; refuses an encrypted log; changes nothing if writing fails |
| Encryption.EncryptedLog.DecryptOnRead | abi/src/audit.rs:1365-1448 | Decrypts the non-empty lines in order, or returns the first error |
| Encryption.EncryptedLog.RotateEncryptionKey | abi/src/audit.rs:1461-1519 | Whole new state and count; changes nothing if reading or writing fails |
| Encryption.EncryptedUnderKey | abi/src/audit.rs:1289-1356 | One line per non-empty line, opening under the given key and no other, each with its own nonce in clear; the count returned is their number |
| Encryption.EncryptingTwiceIsRefused | abi/src/audit.rs:1289-1300 | An encrypted log is not encrypted again, and a failed write changes nothing |
| Encryption.RotatedUnderKey | abi/src/audit.rs:1461-1519 | A rotation succeeds exactly if the log can be read and written; then the i-th line opens to the i-th event under the new key and under no other, and the count is the number of events read |
| Encryption.EncryptingPreserves | abi/src/audit.rs:1289-1356 | Reading the encrypted log gives what parsing the plain log gave, errors included |
| Encryption.RotatingPreserves | abi/src/audit.rs:1461-1519 | A rotation, successful or not, does not change what reading gives |
| Encryption.KeyRotationRoundTrip | abi/src/audit.rs:1104-1519 | Encrypting and then rotating any number of times, successfully or not, gives back exactly the original events in order |
| Encryption.BackupStaysReadable | abi/src/audit.rs:1104-1115 | Old keys are kept: a copy of the file from before any number of rotations is still readable after them |
| Encryption.RoundTripIff | abi/src/audit.rs:1104-1916 | After any mixture of rotations and plain writes the original events are read back if and only if there was no plain write, and otherwise reading fails |
| Encryption.PlainWriteBreaksReading | abi/src/audit.rs:1899-1916 | A plain write to an encrypted log makes every later read fail |
| EventBus.TypedEventBus.Subscribe | abi/src/lib.rs:1333-1348 | Hands out the counter as id and appends the subscriber to its topic |
| EventBus.TypedEventBus.Unsubscribe | abi/src/lib.rs:1350-1358 | Removes the id from its topic and returns whether it was live there |
| EventBus.TypedEventBus.Publish | abi/src/lib.rs:1360-1392 | Delivers the transformed event to its final topic in order, then to "*" in order, or to nobody if it is dropped |
| EventBus.IdsAscend | abi/src/lib.rs:1337-1343 | Ids increase across topics, so every topic lists its subscribers in order of subscription |
| EventBus.IdsAreUnique | abi/src/lib.rs:1337-1348 | No id is live under two topics or twice under one |
| EventBus.LiveIff | abi/src/lib.rs:1333-1358 | After any run the live subscribers are exactly those whose subscription was not followed by their removal |
| EventBus.RemovedForGood | abi/src/lib.rs:1350-1358 | After a removal no later run brings the id back, so unsubscribing succeeds once |
| EventBus.ThroughConcat | abi/src/lib.rs:1360-1368 | A middleware chain is the composition of its parts |
| EventBus.DeliveredIff | abi/src/lib.rs:1360-1392 | After any run, exactly the handlers still subscribed under the final topic or under "*" receive an event that is not dropped |
| EventBus.ThroughIff | abi/src/lib.rs:1360-1368 | An event passes the chain exactly if each middleware, in the order added, turns the outcome of the one before into the next |
| EventBus.DeliveriesFromHistory | abi/src/lib.rs:1360-1392 | The exact sequence of deliveries from the history alone: one for each surviving subscription to the final topic in order, then one for each to "*" in order, none if the event is dropped |
| AbiVersion.ParsePrinted | abi/src/abi_compat.rs:37-90 | Parsing undoes printing for every triple of 32-bit numbers |
| AbiVersion.ReprintIsStable | abi/src/abi_compat.rs:37-90 | Printing a parsed text is stable, and gives the text back exactly when no component has a sign or a leading zero |
| AbiVersion.ParseIff | abi/src/abi_compat.rs:37-73 | What parses and to what: three 32-bit numbers between two dots, the major version first |
| AbiVersion.AcceptedIsAnInterval | abi/src/abi_compat.rs:132-252 | The loaders a plugin accepts are one interval of the version order, for every constraint and bound |
| AbiVersion.RejectedBecause | abi/src/abi_compat.rs:215-252 | Which error a rejected loader gets and what it names: below the minimum, above the maximum, or in between and violating the constraint |
| AbiVersion.AcceptedIsConvex | abi/src/abi_compat.rs:215-252 | Whatever lies between two accepted loaders is accepted |
| StateBlob.ToBytes | abi/src/lib.rs:571-577 | The buffer filled field by field is the header's encoding |
| StateBlob.LayoutByPosition | abi/src/lib.rs:571-640 | The letters SKSR, format version 1 and the plugin version least significant byte first, then the payload |
| StateBlob.CodecIsExact | abi/src/lib.rs:547-577 | A blob parses to a header and payload if and only if the header is valid and the blob is its encoding followed by the payload |
| StateBlob.VersionedIsRecovered | abi/src/lib.rs:614-648 | Parsing a versioned state recovers its version and its data |
| Backoff.DelayMeans | abi/src/lifecycle.rs:712-721 | With p the base times 2^min(r,10): p and a jitter below p/4 taken from the seed while that fits, and the largest number once p does not |
| Backoff.DelayBounds | abi/src/lifecycle.rs:712-721 | The delay lies between the saturated exponential E and the saturated E + E/4 |
| Backoff.DelayGrows | abi/src/lifecycle.rs:712-721 | Over the first ten retries it never decreases, and strictly increases while the base is positive and nothing saturates |

## Left out

- PostgreSQL storage and SQL text, the bodies of the uploads, file system calls, clocks and randomness: environment. Files are sequences of lines, uploads and writes are steps with every outcome, nonces are parameters.
- The PostgreSQL replicator (abi/src/audit.rs:1737-1828) is the same protocol with events in place of lines and is not modelled a second time.
- `purge_before` and `rotate` during replication: they shift line numbers, after which the offset means nothing; the file is assumed to only grow.
- File system errors in the middle of a scan (each would count as a line without being one); a line that is not UTF-8 is a line that does not parse.
- JSON itself: what the replicator needs to know about recognising events is in `Replication.Lawful`, which `AtLeastOnce.LawfulCodecExists` shows can be met.
- AES-GCM, UTF-8 and the event serializer are parameters with the laws in `Encryption.Ideal`; their own correctness is not modelled.
- Trimming of whitespace around the checkpoint number, which the replicator itself never writes.
- Version strings in service discovery are judged by parameters; `find_best_match`, `get_idl`, `list_by_provider` and the other single lookups would only add easy members.
- The dependency resolver's choice of versions, version parsing, exact and wildcard constraints, `transitive_dependents` (the mirror image of `transitive_dependencies`).
- `query_complex`, full-text search, `most_common_event_type`, percentages: single-call or floating-point helpers.
- Overflow of `limit + offset` and of the multiples of `max_memory_lines`: numbers are unbounded there.
- Overflow checks of a debug build: `retry_backoff_ms *= 2` would panic there; the model wraps, as a release build does.
- Node health, cluster status, and the placeholder `sync_nodes` and `detect_conflicts`: time-dependent or empty.
- FFI, dynamic loading and raw pointers; plugin state is a byte sequence.
- Concurrent subscription to the event bus: the id is taken before the lock, so two racing subscribers of one topic may be listed out of id order; the model runs one operation at a time.
- Lock poisoning and panics inside handlers and middleware; middleware are functions.
- BackendsAgree: covers runs on a log written by the backends themselves, without lines that fail to deserialize.
