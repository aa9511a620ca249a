# MagpieDB: a model of its transactions, its index and its durable state

MagpieDB is an embedded vector database in one file. This project models the
parts of it that hold hard state and proves what they promise, or the exact
condition under which they keep the promise.

`dafny verify dfyconfig.toml` checks everything.

## How it is organised

**Transactions.** `VersionChains` has the two loops over one version chain.
`MvccModel` is the transaction code as a machine whose steps are the critical
sections of the code: begin, get, store, remove, validate, fail to log, publish
one key, fail to publish one, fail to update the index, finish, roll back,
collect garbage, and the non-transactional store. A run is any sequence of
steps, and its trace says what each caller saw, misses included.
`MvccInvariants`, `MvccVisibility`, `MvccOverlap`, `MvccSerializability`,
`MvccGarbage` and `MvccOver` are about every run; `MvccLimits` has the runs that show why their
conditions are needed. `MvccManager` is the code in its own imperative form,
each method tied to the steps it performs.

Four conditions recur. A *clean* run has no `Remove`, no failing page write or
index update after a validation, and no `Nest.Store` on a key that the
committing transaction has validated but not yet published. A run is *ordered*
if the committing transaction's ID is above the snapshot of every other running
one; IDs are given out at begin and visibility compares IDs, so this is not
automatic. It is *undisturbed* if no key is published below the snapshot of an
active transaction that has read it, which is less than ordered. A *store-only*
run has no `Remove`.

**The HNSW index.** `HnswHeap` has the two heaps as `container/heap` drives them,
`HnswSearch` the beam search, `HnswGraph` the graph invariants and pruning,
`HnswSweep` what a search, a descent and an insertion amount to in terms of the
graph alone, `HnswInsert` and `HnswRemove` the updates, `HnswLayers` what they
mean for whole layers, `HnswIndex` the index object, and `HnswRuns` arbitrary
runs of it against a plain map. Distances are real numbers
given by an arbitrary function; the random level is an argument from 0 to 16.

**Durable state.** `WalCodec`, `WalReader` and `WalLog` are the log, `Recovery`
what its replay makes of the vectors. `Fields` and `IndexCodec` are the
serialized index, `IndexDecode` its reader on any bytes, `Pages` the page
header, checksum and allocator, `IndexPages` and `IndexReload` the way to pages
and back, `IndexTorn` what comes back when zeros are missing at the end,
`IndexLosses` two families that lose something, `IndexDurable` the same for
indexes built by insertion. `VersionPage`, `DiskChains`, `VersionStore` and
`VersionRuns` are the on-disk version store, `PackedPage` and `Packing` the
packed pages, `VectorPages` the one-vector pages, `PageScan` what opening reads
from the vector pages of a file, `PageReuse` what one-vector pages become on
pages freed by the version store, and `QueryCache` the LRU cache. CRC-32 and
JSON are arbitrary functions; of JSON it is assumed that its text is never empty
and that decoding undoes encoding.

**The database.** `NestStore` is the database object with its index, pages, log
and version chains, and the store and the commit that have to keep them in
agreement. `NestRuns` is any run of it from an empty file, `NestRecovery` the
replay of its log after a crash, and `NestOpening` the opening as a whole: an
index that was saved or is rebuilt from the pages, and the log on top of it.

## Where the code does not do what it says

The model follows the code. Each of these is a lemma or a method contract below.

- A late commit with a low ID enters live snapshots. It tears an atomic commit
  (`MvccLimits.UnorderedRunIsTorn`), commits a stale read
  (`MvccLimits.UnorderedRunNotSerializable`) and loses a committed update
  between transactions that ran together (`MvccLimits.UnorderedRunLosesUpdate`).
- A read that finds nothing is not validated, so it need not repeat serially
  even in a clean ordered run (`MvccLimits.OrderedRunMisses`).
- A committed `Remove` hides nothing from later snapshots
  (`MvccLimits.DeleteMarkerHidesNothing`), until a collection reaches the hidden
  version and drops it, and then it takes effect
  (`MvccLimits.CollectedMarkerHidesIff`); an aborted publication stays visible
  (`MvccLimits.FailedPublishSeenIff`), and a failing index update leaves an
  open transaction whose writes are public and which can never commit, whatever
  runs in between, unless all its keys are removed (`MvccLimits.NeverCommits`).
- A transaction that stores an ID and then removes it leaves the vector in the
  index and on its page, although no snapshot ever reads it
  (`NestRuns.StoreThenRemove`).
- After a commit that fails under way, chains and index agree exactly if the
  index has the vectors that were already published (`NestStore.Nest.Commit`).
- `Nest.Store` always logs an insert and replay ignores inserts of IDs that
  exist, so replay brings back the first vector of an ID, not the last
  (`Recovery.RecoversIff`).
- The log entry of a `Nest.Store` that has returned is lost in a crash while it
  waits for 99 others (`Recovery.StoresLostInCrash`). Its vector page is not, but
  opening looks at the pages only if no index was ever saved: a new ID is back
  exactly then, or if its batch was written (`NestOpening.NewStoreIsBackIff`,
  `NestOpening.StoresThenCrash`). And what the pages bring back is the first
  vector of an ID, whatever was stored over it (`NestOpening.FirstIsBack`).
- A commit that was rolled back comes back at replay, because it was logged
  first (`Recovery.AbortedComesBack`).
- An entry above 10 MiB is written but hides itself and everything after it
  (`WalReader.ReadBackIff`); the scan on opening is called tolerant but panics
  exactly if the first entry it cannot read has a readable length and a field
  that runs past its end (`WalLog.OpeningPanicsIff`); sequence
  numbers start again from 1 after a truncation and a reopening
  (`WalLog.ReopenResumesIff`); what is appended behind a torn entry can be
  swallowed by it (`WalLog.ReopenedTorn`).
- Trimming the zeros at the end of the saved index cuts numbers, and an index
  comes back exactly if none was cut (`IndexReload.PersistAndLoad`): an empty
  index loses `efConstruct`, a lone zero vector its components
  (`IndexLosses.EmptyIndexReload`, `IndexLosses.ZeroVectorReload`). With
  `efConstruct` zero nothing is linked any more, and a query finds the entry
  point alone (`HnswRuns.AddAndSearchUnlinked`).
- A new node can miss a layer that has room for it: if the descent leaves the
  layer through a node that is not on it, the search of that layer starts outside
  and finds none of it, however wide the beam (`HnswLayers.LowStartMisses`,
  `HnswLayers.TopLayerIff`). Links to nodes below a layer come from insertions
  above the top layer, which link the new node to the entry point there.
- Vectors of 976 to 988 components can be stored but not committed: a version
  page has less room than a vector page (`PageReuse.StoredButNotPublished`).
- On-disk collection frees nothing unless there is a delete marker
  (`DiskChains.UndeletedKept`), and a version that is too large costs a page for
  good, if there is one to be had (`VersionStore.Store.StoreVersion`,
  `VersionRuns.Run`).
- A vector stored on a reused version page is shadowed if its ID is what the
  first 64 bytes of the version spell (`PageReuse.VersionPageShadows`).
- A `Nest.Store` between the publication of a commit and its index update leaves
  the index behind the version chain (`NestStore.Nest.StoreOvertakesCommit`,
  `NestRuns.OvertakenRun`); a failing `Nest.Store` of an existing ID takes it
  out of the index but not out of its chain (`NestStore.Nest.Store`).
- A packed page of vectors with more than 987 components is written in part and
  cannot be read back (`Packing.PackRoundTripIff`); packing panics exactly if a
  part of some page starts past its end, as happens with vectors of mixed
  dimensions (`Packing.WrittenIff`, `Packing.MixedPanics`).
- With negative distances, such as the dot product gives, the factor 1.1 of the
  early exit points the wrong way, and the greedy descent never leaves the
  entry point (`HnswInsert.NearestAt`, `HnswInsert.Descend`).

## Model

| member | source | states |
|---|---|---|
| VersionChains.GetVisibleVersion | mvcc.go:121-144 | the snapshot reader's loop finds the first visible version of the chain, as the recursive definition does |
| VersionChains.GcVersionChain | mvcc.go:285-325 | the collector's loop trims: what is left is the front of the chain, all of it but its last version is above the floor, and if anything was dropped the last one is not |
| VersionChains.TrimmedIff | mvcc.go:285-325 | that determines what is left: nothing longer or shorter is a trimmed chain |
| VersionChains.VisibleIsNewest | mvcc.go:121-144 | on a store-only descending chain a snapshot reads the newest version at or below it |
| VersionChains.CutIsPrefix | mvcc.go:285-325 | collection keeps a prefix of a chain, and always its head |
| VersionChains.CutKeepsVisible | mvcc.go:285-325 | collection at a floor changes no read by a snapshot at or above it |
| VersionChains.CutCut | mvcc.go:285-325 | two collections are one at the higher floor |
| VersionChains.CutVisibleIff | mvcc.go:121-144 | with deletions, exactly when collection is invisible to a snapshot |
| MvccModel.Floor | mvcc.go:449-457 | the collection floor is at most every running snapshot and the last commit, and equals one of them |
| MvccInvariants.RunInv | mvcc.go:216-258 | every clean run keeps chains strictly descending and free of deletions, snapshots below IDs, read sets naming versions that were visible, and pending keys unconflicted |
| MvccInvariants.ValidatedHead | mvcc.go:216-258 | after validation the head of every key the transaction writes is at or below its snapshot |
| MvccInvariants.ConflictIff | mvcc.go:216-258 | in every clean run a commit that gets the lock conflicts exactly if a key it has found or written has a version newer than its snapshot |
| MvccVisibility.FloorRises | mvcc.go:449-457 | no step lowers the floor, so what was collected for today's readers is not missed by tomorrow's |
| MvccVisibility.RunHistory | transaction.go:250-295 | in every clean run no later snapshot loses a landed write, and of two transactions that committed a common key one has its ID at or below the snapshot of the other |
| MvccVisibility.NoDirtyRead | mvcc.go:121-144 | what a snapshot read finds in a clean run was written by a committed transaction or by the one that is publishing; in an ordered run only by a committed one |
| MvccOver.OverForGood | transaction.go:432-449 | after a rollback, a commit, a conflict or another failure that ended a transaction in any run, and whatever follows, it stays committed or aborted, every get, store, remove, commit and rollback of it answers not active and does nothing, and no chain gains a version it wrote |
| MvccOverlap.OverlapIff | transaction.go:250-295 | of two transactions that committed a common key in a clean run, the one first by ID had finished before the other began exactly if it never held the commit lock while the other was running |
| MvccOverlap.FirstCommitterFinished | transaction.go:250-295 | first committer wins: in every clean ordered run, of two transactions that committed a common key one had finished its commit before the other began |
| MvccVisibility.RunAllOrNothing | transaction.go:322-342 | at every point of a clean ordered run each running transaction sees all of another's commit, or newer versions, or none of it, although keys are published one by one |
| MvccVisibility.AllOrNothingIff | transaction.go:322-342 | without the order condition, that holds exactly if no reader above the committer's ID has seen one of its keys before the last is published |
| MvccSerializability.SerializableIff | mvcc.go:216-258 | a clean run, ordered or not, is serializable in commit order exactly if at every validation the recorded reads, except those of own stores, hold what is at the heads of their chains |
| MvccSerializability.RunHeads | transaction.go:322-342 | in every clean run the chain heads, counting keys still to be published, are the serial database |
| MvccSerializability.MissesRepeatIff | transaction.go:589-643 | its misses repeat as well exactly if at every validation no missed key has a chain |
| MvccSerializability.RunSerial | transaction.go:250-295 | a clean run is serializable if no key is published below the snapshot of an active transaction that has read it |
| MvccSerializability.OrderedRunSerial | transaction.go:250-295 | so every clean ordered run is serializable in commit order |
| MvccSerializability.ValidatedGetsMatch | mvcc.go:216-258 | a validated transaction's reads all agree with the serial database at its commit |
| MvccSerializability.FreshSnapshotIsSerial | mvcc.go:72-93 | a transaction begun between commits reads exactly the serial database, hits and misses alike |
| MvccGarbage.CollectionsInvisible | mvcc.go:261-282 | erasing all collections from a store-only run changes no read, commit, conflict or abort |
| MvccGarbage.CollectionsInterchangeable | mvcc.go:261-282 | so two runs that differ only in their collections are observed alike |
| MvccLimits.DeleteMarkerHidesNothing | transaction.go:106-159 | as long as nothing is collected, a delete marker leaves the hidden version readable for later snapshots and takes it from earlier ones |
| MvccLimits.RemoveLands | transaction.go:106-159 | a Remove of a committed version, once published, leaves a marker without a vector on top of the unchanged chain, with the creator of the version that was visible |
| MvccLimits.CollectedMarkerHidesIff | mvcc.go:285-325 | after a collection later snapshots find nothing behind the marker exactly if the floor had reached the creator of the hidden version; otherwise they read what they read before |
| MvccLimits.RemoveTakesEffectIff | mvcc.go:261-282 | so in the machine a running snapshot from the removal on misses the ID after a collection exactly if the hidden version was at or below the floor |
| MvccLimits.NestStoreMidCommitBreaksOrder | magpie.go:334-343 | a Nest.Store on a validated but unpublished key puts the chain out of order |
| MvccLimits.FailedPublishStaysVisible | transaction.go:322-342 | a version published before a page write failed is read by later transactions although its own aborted |
| MvccLimits.FailedPublishSeenIff | transaction.go:322-342 | right after a failing publication a running transaction without an own write of the key reads the aborted version exactly if its snapshot has reached the ID; no failing publication leaves the chains as they were |
| MvccLimits.FailedIndexCannotRetry | transaction.go:283-287 | after a failing index update the writes are public, the transaction is still open, and once it has written anything an immediate retry is a conflict |
| MvccLimits.NeverCommits | transaction.go:250-295 | nor can it after any further steps of anyone in which one of its keys is never removed: it stays open or is aborted, and every attempt is a conflict |
| MvccLimits.MissIsNotValidated | transaction.go:589-643 | a read that found nothing is not in the read set, so nothing that appears later makes the transaction conflict |
| MvccLimits.MissRepeatsIff | transaction.go:589-643 | at the validation of a transaction in a clean run a miss it has on record repeats serially exactly if the key still has no chain |
| MvccLimits.OrderedRunMisses | transaction.go:589-643 | a clean ordered run, serializable in its successful reads, whose miss the serial run does not repeat |
| MvccLimits.LateCommitTears | transaction.go:322-342 | whenever a transaction commits two keys below a running snapshot, that reader is caught between them |
| MvccLimits.LateCommitIsUndetected | mvcc.go:216-258 | and validation does not notice that what it read is no longer current |
| MvccLimits.UnorderedRunIsTorn | mvcc.go:72-93 | a run from the empty database, clean but not ordered, in which all-or-nothing fails |
| MvccLimits.UnorderedRunNotSerializable | mvcc.go:216-258 | a clean run that commits a transaction with a stale read |
| MvccLimits.UnorderedRunLosesUpdate | mvcc.go:216-258 | a clean run in which two transactions running together both commit a key, the second overwriting a committed value it never saw |
| MvccManager.Manager.BeginTx | mvcc.go:72-93 | performs the begin step: a new ID, a snapshot of the last commit, registration |
| MvccManager.Manager.Get | transaction.go:589-643 | performs the get step: own writes first, then the visible version, which enters the read set |
| MvccManager.Manager.Store | transaction.go:75-103 | performs the store step, with its checks of ID and dimensions |
| MvccManager.Manager.Remove | transaction.go:106-159 | performs the remove step, marker and all |
| MvccManager.Manager.ValidateTransaction | mvcc.go:216-258 | the two loops over the maps accept exactly the transactions the validation condition accepts |
| MvccManager.Manager.MakeVisible | transaction.go:322-342 | is a sequence of publication steps, one per written key, up to the first page that cannot be written |
| MvccManager.Manager.Commit | transaction.go:250-295 | is a validation step, then one publication per written key, then the closing step; or ends at the conflict, the failing log or the failing page with the lock released and the transaction rolled back, or at the failing index with the transaction still open |
| MvccManager.Manager.NestStore | magpie.go:334-343 | performs the non-transactional store step |
| MvccManager.Manager.GetMinActiveSnapshot | mvcc.go:449-457 | the loop over active transactions computes the floor |
| MvccManager.Manager.GarbageCollect | mvcc.go:261-282 | performs the collection step: every chain is trimmed at the floor, so it keeps at most one version at or below it |
| HnswHeap.Heap.Push | hnsw.go:207-235 | keeps the heap order and adds exactly the element |
| HnswHeap.Heap.Pop | hnsw.go:211-243 | keeps the heap order, removes exactly one element, and it ranks before all others |
| HnswHeap.SortHits | hnsw.go:252-267 | the swap sort sorts and permutes |
| HnswSearch.Offer | hnsw.go:79-90 | admits a neighbour exactly when the results stay the ef nearest of everything evaluated |
| HnswSearch.SearchLayer | hnsw.go:14-98 | returns, sorted and with true distances, the ef nearest of everything it evaluated, which includes the entry points; evaluates each node once and at most 3·ef times the degree more; on a complete set no larger than ef it evaluates everything; with one entry and room for one result it looks at the entry's neighbours exactly if the distance is not negative or there are none; all this through every skip and early exit |
| HnswGraph.LinkedBackOk | hnsw.go:148-188 | linking back and pruning keep the graph well formed and within the caps |
| HnswGraph.CompleteAfterLink | hnsw.go:148-188 | if all nodes of a complete set fit in the caps, linking another to all of them keeps that set with it complete, on any layer |
| HnswGraph.Prune | hnsw.go:164-186 | keeps exactly the cap nearest of an over-long list |
| HnswSweep.Sweeping | hnsw.go:14-98 | in terms of the graph alone, a search of a layer gives the ef nearest of the nodes it looked at, nearest first; it looked at the entries, at nothing the links do not lead to, at all of a complete set no larger than the beam, and at every link of what it gave unless a distance is negative or the visit threshold was passed |
| HnswSweep.DescentBeatsLinks | index.go:84-96 | where a descent ends is no farther from the query than any link of any node on its way on that node's layer, if that node's distance is not negative |
| HnswInsert.InsertAt | hnsw.go:134-197 | one layer of an insertion: the new node's links are the nearest of a search with the whole beam, as many as the cap allows; every one of them links back or kept nearer ones, nothing else changes |
| HnswInsert.NearestAt | hnsw.go:14-98 | one step of the descent ends at a node at least as near as every neighbour of its start exactly if the distance of the start is not negative or the start already was |
| HnswInsert.Descend | hnsw.go:125-132 | the descent is a path from the entry point with one node a layer, each next one reached from the one before, no farther than it, and no farther than any of its links there unless its distance is negative; the cost per layer is bounded by the degree |
| HnswInsert.InsertNode | hnsw.go:121-198 | there is such a path to the layer above the new node and one search a layer from there down, each from what the one before gave; on every layer its links are the nearest min(cap, efConstruct, looked at) of what that search looked at; layers above its level are untouched; well-formedness and degrees are kept |
| HnswInsert.GrownEntry | index.go:54-64 | the entry point stays a present node of the greatest level |
| HnswLayers.LayersStayComplete | hnsw.go:121-198 | if every layer up to the top one is complete and has room, the new node is linked to all of every layer it is on, and they stay complete |
| HnswLayers.TopLayerIff | hnsw.go:125-146 | without that, on its own highest layer, if that is complete and has room, a new node is linked to all of it exactly if the descent ended in it, and otherwise to none |
| HnswLayers.LowStartMisses | hnsw.go:125-146 | a well-formed graph and a new node that is linked to nothing on a complete layer with room for it, however wide the beam |
| HnswRemove.RemoveFromSlice | index.go:381-389 | drops every occurrence and keeps the order |
| HnswRemove.ReconnectNeighbors | index.go:351-378 | afterwards any two of the neighbours are linked both ways or out of room; lists only grow, and only by neighbours |
| HnswRemove.RemoveNode | index.go:112-142 | no link to the node is left, the remaining links keep their order, its neighbours are joined, and well-formedness and completeness are kept |
| HnswRemove.CleanupDanglingReferences | index.go:425-438 | from any graph whose nodes have their lists, drops the links to absent nodes up to each node's level, keeps the others in order and changes nothing else |
| HnswRemove.CleanedIff | index.go:425-438 | after it no such list names an absent node and every present one is still named; it changes nothing exactly if there was no link to an absent node |
| HnswIndex.Index.constructor | index.go:11-20 | an empty index is valid, whatever its parameters |
| HnswIndex.Index.Add | index.go:23-67 | refuses a known ID unchanged, or adds the node by a descent from the old entry point and a search of each of its layers with the whole beam, to whose nearest finds it is linked; keeps all index invariants, the m bound of insert-only graphs, and completeness of layer 0 and of all layers while nodes fit the beam and the lists |
| HnswIndex.Index.Search | index.go:70-109 | there is a path from the entry point, one node for each layer down to 1, each no farther than every link of the one before on its layer, and the first answer is no farther than any of these nodes and links; the answers are the k nearest of what a search of layer 0 with the whole beam from the end of that path looked at; with distances that are not negative and below the visit threshold no neighbour of an answer was left out; every node of a complete small index is looked at; at least one distance is computed for each node looked at and at most 16·(1+6m) + 1 + 6·m·ef |
| HnswIndex.Index.Remove | index.go:112-154 | removes exactly the node, keeps all index invariants and completeness, and picks a new entry point only if needed |
| HnswIndex.Index.SelectNewEntryPoint | index.go:336-348 | finds a node of the greatest level, none exactly if there is none |
| HnswIndex.Index.OptimizeIndex | index.go:401-438 | changes no node and keeps the index valid |
| HnswIndex.Index.Clear | index.go:195-202 | leaves a valid empty index |
| HnswRuns.Run | index.go:23-202 | any run of operations leaves a valid index with exactly the vectors of a plain map; insert-only runs keep at most m links above layer 0; a run that never outgrows beam and lists keeps layer 0 complete, and every layer if it only inserts and the first node is as high as any |
| HnswRuns.RunAndSearch | index.go:70-109 | a query after any run is the exact k nearest of what was looked at, the first answer no farther than anything the descent saw, every neighbour of an answer looked at unless the search was cut short, at a cost independent of the number of vectors; after a run that never outgrew beam and lists it is exhaustive k-NN |
| HnswRuns.AddAndSearchUnlinked | hnsw.go:14-98 | an index whose beam or lists have no room links nothing, and a query finds the entry point alone |
| HnswRuns.KNearestUnique | index.go:70-109 | that answer is unique up to ties |
| LittleEndian.RoundTrip | page.go:25-36 | a number that fits its width is read back |
| LittleEndian.Canonical | page.go:39-55 | every byte string is the encoding of the number it denotes |
| LittleEndian.SerializeVector | page.go:226-232 | the loop writes four bytes for each component, in order |
| LittleEndian.DeserializeVector | page.go:235-242 | the loop reads every whole group of four bytes |
| LittleEndian.VectorRoundTrip | page.go:226-242 | a vector is read back from its bytes |
| WalCodec.SerializeEntry | wal.go:288-351 | the appended fields are the encoding of the entry |
| WalCodec.DeserializeEntry | wal.go:354-397 | the moving offset reads what the block-by-block definition reads, with the same rejections and panics |
| WalCodec.DecodeUndoes | wal.go:288-397 | decoding undoes encoding for every entry that fits its length fields |
| WalReader.ReadAll | wal.go:164-237 | the loop returns the scan's entries, an error after a bare length or a bad entry, a panic where decoding panics |
| WalReader.ReadLastSequence | wal.go:401-475 | the tolerant loop finds the number of the last entry of the same scan |
| WalCodec.PanicsIff | wal.go:354-397 | decoding panics exactly if there are at least 25 bytes and the ID, the vector or the metadata runs past the end, or what follows it has no room for the next field |
| WalReader.ReadersPanicIff | wal.go:164-475 | on any bytes both readers panic exactly if the first entry that cannot be read has a readable length and such data |
| WalReader.ScanPrefix | wal.go:164-237 | on any byte prefix of a log the scan finds exactly the whole entries, and nothing-to-read exactly when the cut is right after a length |
| WalReader.ScanAll | wal.go:193-201 | a whole log reads as the entries before the first one above the limit |
| WalReader.ReadBackIff | wal.go:193-201 | a log is read back in full exactly if no entry is above the limit |
| WalLog.StampSealedIff | wal.go:79-92 | a stamped entry passes verification exactly if the caller's checksum field did not change the CRC, as zero never does |
| WalLog.RunKeeps | wal.go:64-153 | any run keeps every entry appended since the last truncation, once and in order, numbered without a gap, with fewer than 100 of them buffered |
| WalLog.OnlyBatches | wal.go:94-102 | without a flush exactly the full batches of 100 are in the file |
| WalLog.NumbersIncrease | wal.go:76-77 | sequence numbers grow by one along the log |
| WalLog.Fidelity | wal.go:64-265 | reading gives exactly the flushed entries, which with the buffered ones are what was appended since the last truncation |
| WalLog.Torn | wal.go:164-475 | after a crash that leaves any prefix of the file both readers find its whole entries; reading all fails exactly if the cut follows a length |
| WalLog.ReopenResumesIff | wal.go:257-262 | numbering resumes where it stopped exactly if the buffer was empty and something was written since the last truncation |
| WalLog.ReopenedTorn | wal.go:44-61 | a log torn at any byte and reopened still gives its whole entries, and then what a reader makes of the torn rest with the new entries behind it: it goes on exactly if rest and new entries together start with a valid entry |
| WalLog.OpeningPanicsIff | wal.go:400-475 | opening a log of whole entries with anything behind them panics exactly if what follows the last readable entry is an entry of readable length with a field that runs past its end |
| WalLog.OverlongIdPanics | wal.go:354-397 | for one, an ID length beyond its entry makes both readers panic |
| WalLog.Wal.Open | wal.go:44-61 | numbering resumes after the last readable entry of any file, torn or not |
| WalLog.Wal.Append | wal.go:64-102 | numbers, seals and buffers the entry and writes the batch at 100, or refuses when the log is not open |
| WalLog.Wal.Flush | wal.go:105-153 | the buffered entries follow the others in the file |
| WalLog.Wal.Truncate | wal.go:240-265 | empties file and buffer and keeps the number |
| WalLog.Wal.Close | wal.go:268-285 | flushes and releases the file |
| WalLog.RunAndRead | wal.go:64-265 | a reader after any run of the object, on a file opened with any bytes, sees the specified file |
| Recovery.ReplayTwice | recovery.go:317-407 | replaying any prefix of a log and then all of it is like replaying it once, for inserts, updates and deletes in any mix |
| Recovery.ReplayedVector | recovery.go:353-407 | what a replay leaves of an ID: the vector of its last update; or after its last delete, or if it was not there, the vector of the first insert that follows; or what was there |
| Recovery.CrashRecovery | recovery.go:317-350 | from the bytes a crash leaves, and however far an earlier recovery got, recovery gives what the whole entries give, or fails exactly if the cut follows a length |
| Recovery.RecoversIff | magpie.go:299-310 | replay recovers the stored vectors at every moment exactly if every store was of a new ID or of the vector the ID already had |
| Recovery.StoresLostInCrash | magpie.go:299-310 | after n stores that returned, a crash keeps all but the last n mod 100 of them in the log |
| Recovery.LostStoreIsGone | recovery.go:317-350 | replayed onto vectors that do not have it, the log does not bring back an ID stored only among those |
| Recovery.AbortedComesBack | transaction.go:270-281 | a commit that is logged and then rolled back is replayed: its write of every ID that the log left absent comes back |
| Recovery.CountRightIff | recovery.go:353-407 | replay's own count is right exactly if no delete or update was of an absent ID, which is why it is set again afterwards |
| Fields.SeesCutIff | recovery.go:292-298 | a stream whose trailing zeros are missing is read correctly exactly if the cut is not inside a number |
| IndexCodec.Serialize | index.go:205-252 | writes header and nodes, each node once, in some order |
| IndexDecode.Deserialize | index.go:255-333 | for any bytes the index is made of the header and nodes that the bytes show, missing bytes read as zero, later nodes replacing earlier ones of the same ID |
| IndexDecode.ShownIsRead | index.go:255-333 | bytes that show an image, in any order of its nodes, give that image |
| IndexDecode.SaveAndLoad | index.go:205-333 | nodes, levels, vectors, lists, parameters and entry point come back, whatever the order |
| Pages.SealedVerifies | page.go:199-223 | a finished page verifies and its header and body read back, because the sum skips its own field |
| Pages.Storage.ReadPage | storage.go:72-83 | gives a page of the file and nothing else |
| Pages.Storage.WritePage | storage.go:87-104 | replaces one page of the file |
| Pages.Storage.AllocatePage | storage.go:108-149 | hands out the page freed last or a new one of zeros, never the header page, and none exactly if the file cannot grow |
| Pages.Storage.FreePage | storage.go:153-173 | accepts any page of the file; freeing page 0 or a free page breaks the allocator |
| IndexPages.PersistData | storage.go:348-408 | the data is held by a chain of distinct pages from the root, other pages are unchanged; on failure nothing was written |
| IndexPages.LoadData | recovery.go:258-298 | returns what the walked pages hold without trailing zeros, or fails at the first page out of range, unverified or of another type, or is still walking |
| IndexPages.EndsWithinFile | recovery.go:258-298 | the walk ends exactly if it ends within one page more than the file has; otherwise it goes in a circle for ever |
| IndexPages.HeldLoadsTrimmed | recovery.go:258-298 | the chain of persisted data is walked to its end, every page verifies, and the bytes come back trimmed, so unchanged if the last is not zero |
| IndexTorn.ReadBackIff | recovery.go:292-306 | what the trimmed stream of an image is read as is that image exactly if the trimming did not cut a number |
| IndexReload.PersistAndLoad | storage.go:348-408 | an index comes back from its pages as it was exactly if its stream is not torn |
| IndexReload.LinkedNotTorn | recovery.go:292-298 | a stream is not torn if every node has a link and no ID ends in a zero byte |
| IndexLosses.EmptyIndexReload | recovery.go:292-306 | an empty index comes back with efConstruct zero |
| IndexLosses.ZeroVectorReload | recovery.go:292-306 | a lone zero vector comes back with no components, whatever its level |
| IndexDurable.GrownNoneAlone | hnsw.go:134-197 | insertion leaves no node of two or more without a link |
| IndexDurable.BuildAndReload | storage.go:348-408 | an index built by any insertions comes back unchanged if it has two nodes or more and no ID ends in a zero byte |
| VersionPage.VersionRoundTrip | storage_mvcc.go:213-349 | a version that passes the size checks is read back from its page |
| DiskChains.SortChain | storage_mvcc.go:352-391 | sorts by version number, newest first, and loses no page |
| DiskChains.KeptAndFreed | storage_mvcc.go:119-156 | collection keeps or frees every page of a readable chain, none twice |
| DiskChains.LatestKept | storage_mvcc.go:119-156 | the latest version of an ID is always kept |
| DiskChains.FreedIsDead | storage_mvcc.go:133-147 | what is freed is deleted, older than the oldest transaction and not the latest |
| DiskChains.FreedIff | storage_mvcc.go:133-147 | of a readable chain without duplicates a page is freed exactly if it is not the first and its version is deleted and created before the oldest transaction |
| DiskChains.UndeletedKept | storage_mvcc.go:133-147 | without delete markers nothing is ever freed |
| VersionStore.Store.StoreVersion | storage_mvcc.go:29-57 | adds exactly this version to its ID's chain, newest first, or fails if there is no page or it does not fit; no live page is shared or reused; exactly a version that does not fit while there is a page takes one out of use, in no chain and not free |
| VersionStore.Store.GetAllVersions | storage_mvcc.go:61-87 | lists the ID's versions, newest first |
| VersionStore.Store.GCVersionsOlderThan | storage_mvcc.go:112-159 | exactly the dead pages, those not first in their chain whose version is deleted and created before the oldest transaction, leave the chains and become free; their number is returned |
| VersionRuns.UndeletedStay | storage_mvcc.go:119-156 | collection removes no version without a delete marker |
| VersionRuns.Run | storage_mvcc.go:29-159 | over any run with other users of the file no page is ever both live and free, shared, or taken by others, and every unmarked version stored is still there; each version too large for a page costs at most one page, exactly one while the file can grow, which is never free, listed or handed out again, and no other page of the file is lost |
| PackedPage.IdSurvivesIff | page.go:290-310 | an ID comes back from its 64 bytes exactly if it has 1 to 64 bytes and no zero, or 64 bytes of which the first is zero |
| PackedPage.SerializePackedPage | page_packing.go:103-139 | the running offset writes count, entries and data where the layout has them, cut at the end of the page; panics exactly if a part starts past it |
| Packing.UnpackVectorsFromPage | page_packing.go:142-193 | reads the entries, then the vectors they point at, with the same errors and panic |
| Packing.Disjoint | page_packing.go:72-100 | entries and vectors of a page that fits do not overlap and end inside it |
| Packing.PageRoundTrip | page_packing.go:72-193 | a page that fits gives its vectors and IDs back in order |
| Packing.CapacityIs | page_packing.go:24-44 | up to 987 dimensions the capacity is the greatest number of vectors that fit |
| Packing.PackVectorsIntoPages | page_packing.go:47-69 | the pages are those of consecutive groups of the capacity for the first vector, for vectors of any dimensions, or a panic exactly if one of them cannot be written |
| Packing.WrittenIff | page_packing.go:47-139 | packing given groups panics exactly if one of them cannot be written |
| Packing.EqualWritten | page_packing.go:47-139 | vectors of one dimension never panic |
| Packing.MixedPanics | page_packing.go:47-139 | a large vector between small ones does |
| Packing.PackRoundTripIff | page_packing.go:24-193 | packing and unpacking gives all vectors back in order exactly if one vector fits a page |
| Packing.MixedRoundTrip | page_packing.go:24-193 | vectors of any dimensions come back in order if every page fits |
| Packing.PackingIsMinimal | page_packing.go:47-69 | no other distribution over pages of this layout needs fewer |
| VectorPages.LoadsNewestIff | magpie.go:904-1031 | the vector just written is the one loaded exactly if no older entry of the page carries its ID |
| VectorPages.FreshLoads | magpie.go:852-1031 | on a new page a vector of at most 988 components is always loaded back |
| QueryCache.Cache.Get | cache.go:39-54 | answers and reorders like the recency-ordered pairs, and counts the hit or miss |
| QueryCache.Cache.Put | cache.go:57-85 | stores like the recency-ordered pairs, dropping the last ones; the eviction loop ends |
| QueryCache.Cache.Invalidate | cache.go:88-94 | empties map and list |
| QueryCache.HoldsMostRecent | cache.go:39-94 | the cache holds exactly the maxSize keys used last since it was invalidated |
| QueryCache.LargerHitsMore | cache.go:39-94 | a larger cache holds whatever a smaller one does |
| QueryCache.Run | cache.go:39-108 | any gets, puts and invalidations in any order: map and list stay in step, every get is answered from the pairs that the calls before it left, and hits and misses count the gets |
| QueryCache.HoldsLastPut | cache.go:39-94 | each pair held is the last one put under its key since the last invalidation |
| NestStore.PublishedChains | transaction.go:322-342 | the publications of a commit put its writes on top of their chains and nothing else |
| NestStore.Nest.StoreVector | magpie.go:852-901 | a vector gets a page of its own and is loaded back from it, or nothing is mapped |
| NestStore.Nest.Store | magpie.go:267-363 | logs first; after a store that succeeds count, index, page and newest version agree; it fails exactly for a bad ID, bad dimensions, a closed log, a vector above 988 components or a full file, and then leaves the chains alone |
| NestStore.Nest.UpdateIndex | transaction.go:345-410 | writes all vectors of a store-only commit to index and pages, in any order, and counts the new ones |
| NestStore.Nest.Commit | transaction.go:250-295 | how a store-only commit ends is decided by its state, the log and the room in the file; after one that goes through count, index, pages and newest versions agree and its writes are in the log; after one that fails under way newest versions and index agree exactly if the index has the published vectors |
| NestStore.Nest.StoreOvertakesCommit | transaction.go:345-410 | a store of any ID between publication and index update of any commit: the views agree afterwards exactly if the commit did not write the ID or wrote the same vector |
| NestRuns.Run | magpie.go:267-363 | any run of begin, get, store, commit, rollback, collection, reselection of the entry point and Nest.Store from an empty database, up to the first page that cannot be written: count, index, pages and newest versions agree after every operation and the index is the serial database |
| NestRuns.RollbackThenCommit | transaction.go:432-449 | after a rollback, any operations of anyone and then a commit of the transaction, the commit is refused and nothing it wrote was published in between |
| NestRuns.RefusedCommit | transaction.go:250-253 | a commit of a transaction that is over changes neither chains, index nor log |
| NestRuns.OvertakenRun | transaction.go:345-410 | a run in which the overtaking store, the commit and its index update all go through and the views disagree |
| NestRuns.StoreThenRemove | transaction.go:345-402 | a transaction that stores an ID, removes it and commits leaves the vector in the index, on its page and in the newest version, while every snapshot reads what it read before |
| NestRecovery.ApplyEntry | recovery.go:353-407 | one entry does to index, count and pages what its effect on the map says, and fails exactly for an unknown type or a vector that finds no page |
| NestRecovery.ReplayAll | recovery.go:332-342 | replay gives the replayed map on a valid index, keeps every vector on its page if it was, leaves the places of IDs that the log does not name, and fails exactly if some entry does |
| NestRecovery.Recover | recovery.go:81-96 | reads, replays and empties the log and then takes the count from the index whatever it was; index and pages agree afterwards if they did before; it ends as what was read says, and leaves the log alone if it fails |
| NestRecovery.OpeningAfterCrash | recovery.go:317-350 | after a crash at any byte, and however far an earlier recovery got, opening never panics, fails to read exactly if the cut follows a length, and otherwise replays to what the whole entries give |
| PageScan.Rebuild | recovery.go:187-255 | the loop over pages and entries gives the index the vector of the first live, readable entry of every ID on the vector pages, and nothing else, and the page map the page of its last such entry; other pages, deleted entries and vectors that cannot be read are passed over |
| PageScan.MapPages | recovery.go:141-184 | beside a saved index an ID is mapped to a page exactly if its last live entry is on it |
| NestOpening.Open | recovery.go:11-99 | opening starts from the saved index, or without one from the first vector of every ID on the pages, and holds what the log makes of that; beside a saved index an ID the log does not name is mapped to the page of its last live entry; it fails exactly as reading and replay do, and then log, count and index are in order |
| NestOpening.NewStoreIsBackIff | magpie.go:267-363 | after stores that returned and a crash, the opened index has an ID that is new in them exactly if its batch was written, or if no index was ever saved and the ID can be read back from a page |
| NestOpening.FirstIsBack | recovery.go:187-255 | without a saved index every ID on the pages comes back with its first vector, not the one stored last |
| NestOpening.StoresThenCrash | magpie.go:267-363 | the same on the database object: stores, which all go through while the file has room, a crash and the opening; the log is read without an error, the opening goes through if there is room, and both hold of the opened index |
| PageReuse.VersionPageShadows | magpie.go:976-1031 | a vector stored on a freed version page is shadowed exactly if its ID is what the first 64 bytes of the version spell |
| PageReuse.SmallVersionShadows | magpie.go:976-1031 | for a version number below 256 the shadowed ID is that one byte |
| PageReuse.ShadowedRightIff | magpie.go:904-950 | a shadowed load still gives the right vector exactly if the stale entry points at as many components and finds those bytes by chance |
| PageReuse.StoredButNotPublished | storage_mvcc.go:213-262 | a vector of 976 to 988 components fits a new vector page but no version page |

## Left out

- File handles, memory mapping, syncing, renaming, backup and compaction: operating-system calls. A file is a sequence of bytes or of pages.
- Float arithmetic, NaN and the distance functions: a distance is a real number given by any function; in codecs a float is its 32-bit pattern.
- Locks inside a single method and data races: a step of the model is a critical section. One transaction object is not shared by two goroutines.
- `LoadVersionChains`: it tells version pages from vector pages by type and count, which both share.
- NestOpening.Open: the chains loaded from disk and a saved index that cannot be loaded are not part of it.
- Metadata pages: `Nest.Store` is modelled without metadata; versions and log entries carry it.
- `Tx.Find`, filters, metrics, statistics, workers, compression, the command line: plumbing.
- Wrap-around of transaction IDs, and of page offsets computed from corrupted page numbers above 2^52.
- HnswIndex.Index.Add: nodes are named by their map key, so a node pointer and an ID are the same; aliasing of nodes is not captured.
- HnswSearch.SearchLayer: nil entry points are not modelled, since no caller passes one.
- HnswIndex.Index.Search: what is near enough in a large graph is a matter of data, so exactness is stated for what was looked at, and for all vectors only in small complete graphs.
- MvccManager.Manager.Commit: transaction objects are records held by ID; at one time the caller commits one transaction, concurrency is in the machine's steps.
- MvccManager.Manager.NestStore: begin, add and commit are taken as one step, though the code takes the manager's lock three times; a collection or a commit in between is not followed.
- MvccVisibility.RunAllOrNothing: deletions and failing page writes are outside it, for the reasons the limits show.
- VersionChains.GcVersionChain: a chain is a sequence, so the pointers that the code rewrites in place are not captured.
- WalLog.Wal.Append: failing writes and syncs of the file are not modelled; a crash is a prefix of the bytes.
- WalLog.OverlongIdPanics: one family; OpeningPanicsIff has the condition.
- NestRecovery.ReplayAll: metadata pages and the version chains loaded beside the log are not part of it.
- IndexDecode.Deserialize: a stored level of 2^32-1, whose list count wraps to zero and panics, is read as 2^32 lists; running out of memory on huge lengths is not modelled.
- IndexPages.LoadData: the code counts no pages; the model walks at most as many as it is told, and EndsWithinFile says that one more than the file has is enough.
- PackedPage.SerializePackedPage: the panic is found before anything is written; the buffer it leaves behind is never seen by a caller.
- QueryCache.Cache.Put: a size limit of zero makes the eviction loop of the code spin for ever, so at least 1 is required; the list element is found by its key.
- NestStore.Nest.Store: states the fresh-page case, in which nothing was ever freed, and no metadata; LoadsNewestIff and PageReuse have the reused pages.
- NestStore.Nest.Commit: store-only write sets; the version pages written meanwhile have any content, and a failing syscall other than a full file is a parameter of the manager only.
