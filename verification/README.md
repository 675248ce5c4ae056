# QMDB: a verified model

QMDB is an append-only, verifiable key-value store. Every update appends an entry to the log of a
shard; an index maps truncated key hashes to log positions; a Merkle tree of twigs (2048 entries
each, with one active bit per entry) commits to the log; a background scanner feeds entries to be
moved to the end so that old twigs can be dropped. This project models these parts in Dafny, in the
form the source has (classes with in-place updates where it updates in place), and proves that each
of them agrees with a simpler definition.

| files | part |
|---|---|
| `ShardLog`, `ShardProofs`, `ShardRuns`, `ShardLineage`, `ShardReads`, `Updater` | the update log of a shard with its compaction pipeline |
| `Merkle`, `Twig`, `ActiveBits`, `UpperTree` | digests and the reference tree; syncing, evicting and pruning |
| `TwigFile`, `Proof`, `ProofBuild` | the sparse twig file; proofs: checking, encoding, building |
| `Recover`, `Flushing` | appending and replaying the log; what a flush leaves of the twigs, block after block |
| `EntryBuffering`, `SegmentedFile` | the buffer between updater and flusher; the segmented file |
| `InMem`, `InMemUnit` | the in-memory index unit |
| `Hybrid`, `HybridFile`, `HybridUnit` | the hybrid index unit: file, overlay, cache |
| `HybridShard`, `HybridRuns`, `HybridStale`, `HybridIndex` | a shard joined with the hybrid index: what its lookups find, whole runs with merges and prefetching |
| `ChangeSets`, `Tasks` | batches of operations, prefetching, running tasks in order |
| `Witness`, `WitnessBuild`, `WitnessTree`, `WitnessBinding` | stateless witnesses: verifying them, building them, reading their hashes, what they prove |
| `Basics` | options, bytes, entry lengths, accessors that stop |

`dafny verify dfyconfig.toml` checks everything.

Conventions. Digests are terms (`Raw`, `Page`, `Node(level, left, right)`), so hashing is injective
without an assumption. Panics of the source become a `None`, a `false` or an outcome; a `requires`
states what the source takes for granted of its callers. Calls made by several threads are modelled
as atomic steps in any order. Positions and serial numbers are unbounded naturals except where a
width matters (halved page keys, marked positions, 16-bit-shifted positions, 48-bit leaf keys). The
update log is first a machine with an exact index (`ShardRuns`); `ShardReads` follows what the
in-memory index really offers, `HybridRuns` joins the machine with the hybrid units.

What the proofs assume, as the source does: distinct keys have distinct hashes and user values are
not empty, so that only sentries have the hash of a sentry; positions of the hybrid index are below
2^47 and, since the log only grows, never used twice; `youngest_twig_id >= 1` when upper nodes are
synced; entry positions are multiples of eight (the update log counts them in words of eight bytes, as
the hybrid index stores them); entry hashes, pages of active bits and node hashes are never equal to
one another.

Where the code falls short of what one might expect, a failing input is given and the exact condition
is proved:

- `create_kv` reads its candidates into one buffer and asks the index to stop at the right one. The
  in-memory index, the default, then still visits the key before, so when the predecessor shares the
  truncated hash both new entries are built from the wrong record (`ShardReads.SecondCreateFails`).
  A run with that index stays sound iff no create meets a stored key with its truncated hash below it
  (`ShardReads.SoundIffClear`, `ShardReads.CreateRightIff`).
- With the hybrid index a value-only lookup that finds two file records is cached, for its block height,
  as if there were no smaller key. A create or delete that hits this answer panics, though the plain
  store allows it (`HybridStale.FreshRunPanics`, `HybridStale.WriteThenDeletePanics`), iff its predecessor
  has a smaller truncated key and is not among the overlay values at the overlay's largest smaller key
  (`HybridRuns.PanicsIff`, `HybridShard.PredecessorOfferedIff`, `HybridShard.LostInOverlayTerms`). When the
  cache becomes stale is exact too (`HybridUnit.ValueSeenIff`). In all other cases the predecessor is
  found, also where the lookup misses other records, and runs go as with an exact index
  (`HybridRuns.TraceRefines`); while no two stored keys share a truncated hash no answer is ever stale
  (`HybridStale.TwinFreeRefines`).
- `ProofPath::check` does not compare the side of a peer with the serial number; only decoding fixes
  it (`Proof.UndirectedDoesNotBind`, `Proof.BindingIff`).
- Pruning up to an odd twig deletes the root of its left sibling, which a proof for that twig then
  reads as null (`ProofBuild.OddPruneRejected`); the proof is accepted iff that sibling was kept or
  is null (`ProofBuild.GetProof`).
- The adjacent lookup of the hybrid unit can miss a record: when a key is erased without changing the
  key before it (`Hybrid.LoneEraseHides`), and also with that change when the key before has a second
  position in the file (`Hybrid.SecondPositionHides`). Every lookup of a run is exact iff no operation
  exposes a record in this way (`Hybrid.RunExactIff`); with one position per key none does
  (`Hybrid.OnePerKeyCovered`).
- A value-only lookup with several values is cached as if there were no smaller key
  (`HybridUnit.TwoValuesHideKeyBefore`, `HybridUnit.ValueCachedIff`).
- `flush_files` adds to the upper tree a copy of the youngest twig that was taken one block before, before
  the trees over its active bits were synced. The 512 bits that the block does not touch then fall back
  to what the copy shows, at first no bit at all: 512 entries in one block and one in the next leave a
  wrong twig root (`Flushing.SecondBlock`), which a restart would compute differently. A twig is right iff
  each part was touched since the copy was added or is as in the copy (`Flushing.TwigRightIff`,
  `Flushing.Flusher.FlushFiles`).
- Replay activates an entry that names itself, the live run does not (`Recover.SelfNamedDiffers`,
  `Recover.ReplayAgreesIff`); the updater never writes one (`Recover.RecoveredExactly`).
- Sorting a change set twice doubles its counters, and then a shard that has operations is never told
  that they are prefetched (`Tasks.SortedTwice`, `Tasks.Prefetch.AllTold`).
- A witness is rooted at the smallest tree that holds its last serial number; it is accepted for the
  old and the new root iff both trees have that height (`WitnessBuild.FirstEntryOnly`,
  `WitnessBuild.WitnessAcceptedIff`).
- `verify_witness` tests that two nodes are siblings but neither which of them comes first nor where
  the top node stands (`WitnessBinding.UnorderedDoesNotBind`, `WitnessBinding.MisplacedDoesNotBind`);
  a witness binds its values iff its places are in order (`WitnessBinding.BindingIff`).
- A reopened `HPFile` writes to the beginning of its last segment until the first flush or truncation
  (`SegmentedFile.ReopenedOverwrites`); `truncate` leaves the writer's buffer alone
  (`SegmentedFile.TruncatedComesBack`). The conditions are in `SegmentedFile.HPFile.Append` and
  `SegmentedFile.HPFile.Truncate`.

## Model

| member | source | states |
|---|---|---|
| `ShardLog.ActAppend` | qmdb/src/updater.rs:184-194 | appending an entry activates its number and deactivates the ones it lists; the log stays well-formed iff the listed ones were active |
| `ShardLog.ListedStaysInactive` | qmdb/src/updater.rs:184-194 | a listed number is older than the entry that lists it and is never active again |
| `ShardLog.DeactivatedAtMostOnce` | qmdb/src/updater.rs:184-194 | in a well-formed log no serial number is listed twice |
| `ShardProofs.IndexedIffActive` | qmdb/src/updater.rs:337-348 | a log record is in the index exactly when it is active: what `key_exists` decides for a possibly stale job |
| `ShardProofs.PredecessorIsAdjacent` | qmdb/src/updater.rs:213-236 | truncating hashes loses no predecessor: the active entry whose range contains a hash is always among the adjacent candidates |
| `ShardProofs.RewriteKeepsInv` | qmdb/src/updater.rs:184-202 | rewriting an active entry keeps chain, index and pipeline; exactly that number is replaced by a new one |
| `ShardProofs.CreateKeepsInv` | qmdb/src/updater.rs:294-328 | inserting behind the predecessor keeps the invariant; exactly the predecessor is replaced and one number added |
| `ShardProofs.DeleteKeepsInv` | qmdb/src/updater.rs:241-257 | deleting relinks the predecessor past the victim; exactly these two numbers go and one is added |
| `ShardProofs.ConsumeKeepsInv` | qmdb/src/updater.rs:337-376 | consuming a job, stale or not, keeps the invariant; a live job is the oldest active entry, `sn_start` grows and stays within the log |
| `ShardProofs.LookKeepsInv` | qmdb/src/compactor.rs:49-65 | the scanner may pass an entry that it finds dead: queued jobs and the rest of the log still cover everything active |
| `ShardProofs.ProduceKeepsInv` | qmdb/src/compactor.rs:66-80 | queueing an entry that was live when the scanner looked keeps the invariant, whatever the updater has done to it since |
| `ShardProofs.BelowWindowInactive` | qmdb/src/updater.rs:370-371 | every number below `sn_start` is inactive |
| `ShardRuns.TargetIffStored` | qmdb/src/updater.rs:166-182 | `write_kv` finds its entry iff the key is stored |
| `ShardRuns.GapIffFree` | qmdb/src/updater.rs:271-293 | `create_kv` finds a predecessor iff the key is in the shard and its hash is free |
| `ShardRuns.DeletableIff` | qmdb/src/updater.rs:213-241 | `delete_kv` finds victim and predecessor iff the key is stored and is no sentry |
| `ShardRuns.EveryStepRefines` | qmdb/src/updater.rs:157-376 | with an exact index each step succeeds exactly when the plain key-value store allows it and has the same effect: value and version of the key, and the new version of the key before it when one is created or deleted; compaction changes neither |
| `ShardRuns.RunRefines` | qmdb/src/updater.rs:157-376 | every interleaving of write, create, delete, consume, and of the two halves of a scanner turn, refines the plain store with its values and versions; `sn_start` never decreases |
| `ShardRuns.ActiveChain` | qmdb/src/updater.rs:157-376 | the active entries form one chain in hash order, each pointing to the next, the last to the end of the shard |
| `ShardRuns.GenesisInv` | qmdb/src/entryfile/entry.rs:91-117 | the initial sentries form such a chain and satisfy the whole invariant |
| `ShardRuns.ReachableSafe` | qmdb/src/updater.rs:157-376 | in every reachable state: invariant, agreement with the plain store, `sn_start <= sn_end`, nothing active below it, no number deactivated twice |
| `ShardLineage.ReachableLineage` | qmdb/src/updater.rs:157-376 | in every reachable log an entry lists last the entry of the same key that it replaces, before it the deleted one whose link it takes over; an entry that lists none is a new key and the relinked entry before it follows |
| `ShardReads.OverrunReadsBelow` | qmdb/src/indexer/inmem.rs:469-520 | when the in-memory enumeration runs on after the stop, the read buffer holds an entry that lies, with its link, below the new hash |
| `ShardReads.CreateRightIff` | qmdb/src/updater.rs:271-328 | creating is the create step, and keeps the invariant, iff the search does not run on: not (the predecessor shares the truncated hash and the unit has a smaller one) |
| `ShardReads.OverrunIff` | qmdb/src/updater.rs:271-328 | it runs on iff a stored key below the new hash shares its truncated hash, which is not zero |
| `ShardReads.SoundIffClear` | qmdb/src/updater.rs:157-376 | with the in-memory index a run that the plain store allows stays within the invariant iff no create meets such a key |
| `ShardReads.ClearRun` | qmdb/src/updater.rs:157-376 | and then it ends exactly where the plain run ends |
| `ShardReads.SecondCreateFails` | qmdb/src/updater.rs:294-328 | two keys with one truncated hash in a fresh shard: the second is linked backwards, the sentry is dropped in place of the first key, and the index leads from the first key to a copy of the sentry |
| `Updater.DrainRefines` | qmdb/src/updater.rs:338-348 | looping over stale jobs to the first live one does not change what the store holds |
| `Updater.DrainKeepsInv` | qmdb/src/updater.rs:338-376 | draining keeps the invariant |
| `Updater.DrainMovesOldest` | qmdb/src/updater.rs:338-376 | compaction never waits in vain: it moves the oldest active entry to the end, and `sn_start` becomes the number after it |
| `Updater.CompactibleMeans` | qmdb/src/updater.rs:378-387 | `is_compactible`: enough entries are active and their share of the window is at most ratio / div |
| `Updater.Shard.SettleMoves` | qmdb/src/updater.rs:330-334 | when it holds, exactly one or two of the oldest active entries move to the end, and `sn_start` grows |
| `Updater.Shard.constructor` | qmdb/src/updater.rs:38-74 | a shard starts in the sentry state; with the hybrid index every unit has its sentry in its file |
| `Updater.Shard.ReadEntry` | qmdb/src/updater.rs:76-107 | reading a position puts the log entry at it into the read buffer |
| `Updater.Shard.Enumerate` | qmdb/src/indexer/inmem.rs:437-520 | what the accessor is offered until it stops and what it is offered after that: with the in-memory index first the positions at the truncated hash, then those at the largest smaller one; with the hybrid index, in one list, what cache, file and overlay of the unit yield at this height; the full-hash predecessor is among them iff it is not lost to a stale cached answer |
| `Updater.Shard.FindTarget` | qmdb/src/updater.rs:168-182 | the candidate loop leaves the entry of the key in the read buffer, or there is none; what the lookup leaves in the caches |
| `Updater.Shard.FindGap` | qmdb/src/updater.rs:271-293 | the candidate loop settles on the entry whose range contains the hash, unless there is none or it is lost to a stale cached answer; which entry the read buffer then holds |
| `Updater.Shard.FindVictim` | qmdb/src/updater.rs:213-241 | one loop finds both victim and predecessor, the victim iff it exists, the predecessor iff it exists and is not lost to a stale cached answer |
| `Updater.Shard.WriteKv` | qmdb/src/updater.rs:157-202 | the method is the write step, which sets value and version, followed by the compaction that the utilisation asks for; failure changes nothing; the invariant holds again and the units of the hybrid index are in step |
| `Updater.Shard.CreateKv` | qmdb/src/updater.rs:260-335 | fails iff there is no room for the hash or the predecessor is lost to a stale cached answer of the hybrid index, and changes nothing then; otherwise it is the create step followed by up to two compactions, and keeps the invariant, iff the search did not run on after its stop |
| `Updater.Shard.DeleteKv` | qmdb/src/updater.rs:204-258 | fails iff the plain step does or the predecessor is lost to a stale cached answer of the hybrid index, and changes nothing then; otherwise it is the delete step; the invariant holds again |
| `Updater.Shard.Compact` | qmdb/src/updater.rs:337-376 | compaction consumes jobs up to and including the first live one; while the queue is empty the scanner takes its turns |
| `Updater.Shard.ConsumeOne` | qmdb/src/updater.rs:337-376 | one job: tells whether it was live and performs the consume step |
| `Updater.Shard.ScanOne` | qmdb/src/compactor.rs:43-80 | half a turn of the scanner, testing or queueing, keeps the invariant |
| `Updater.Shard.MaybeCompact` | qmdb/src/updater.rs:198-201 | compaction runs only when `is_compactible` holds, which needs `sn_start <= sn_end` |
| `Updater.Shard.Perform` | qmdb/src/updater.rs:138-148 | any operation, turn of the scanner, merge or prefetch lookup fails iff the plain store forbids it or it loses its predecessor, and otherwise has the effect of the plain operation and keeps the invariant; a clashing create is excluded with the in-memory index |
| `Updater.Shard.RunSteps` | qmdb/src/updater.rs:126-155 | whole sequences of these: a run stops at the first event that the plain store forbids or that loses its predecessor, and up to there does what the plain store does |
| `HybridShard.PredecessorOfferedIff` | qmdb/src/indexer/hybrid/unit.rs:236-340 | the adjacent lookup of a unit hands out the full-hash predecessor of a hash iff it is not lost: always without a stale cached answer, also after deletions that make other records disappear; with one iff the predecessor has the truncated hash itself or is in the overlay |
| `HybridShard.LostInOverlayTerms` | qmdb/src/indexer/hybrid/unit.rs:272-303 | a predecessor is lost iff the cached answer is stale, its truncated key is smaller, and it is not among the overlay values at the overlay's largest smaller key |
| `HybridShard.RewroteKeeps` | qmdb/src/updater.rs:195-197 | a rewritten entry: the unit shows the pairs of the index again, and the greatest active entry below every file key whose records are all erased is in the overlay |
| `HybridShard.CreatedKeeps` | qmdb/src/updater.rs:321-328 | an inserted entry, likewise |
| `HybridShard.DeletedKeeps` | qmdb/src/updater.rs:252-257 | a deleted entry, likewise, also when the deletion exposes records of the key before |
| `HybridShard.MergeKeepsView` | qmdb/src/indexer/hybrid/unit.rs:47-112 | merging, likewise; the sentry stays the first record |
| `HybridRuns.EventKeeps` | qmdb/src/updater.rs:157-376 | write, create, delete, consume, scanner turns, lookups of the prefetcher and merges in any order keep every unit in step with the shard, and do to the log what they do with an exact index |
| `HybridRuns.PanicsIff` | qmdb/src/updater.rs:157-335 | with the hybrid index an event panics iff the plain store forbids it or it is a create or delete whose predecessor is lost |
| `HybridRuns.EventHappens` | qmdb/src/updater.rs:157-376 | an event that does not panic leads to a next state |
| `HybridRuns.HeightOf` | qmdb/src/updater.rs:164 | the height that lookups pass is that of the block whose transactions the version numbers |
| `HybridRuns.TraceRefines` | qmdb/src/updater.rs:126-376 | every run with the hybrid index, lookups and merges included, ends in the log of the plain run and stores what the plain store does |
| `HybridRuns.HybridReachable` | qmdb/src/updater.rs:126-376 | the same for every state reachable from the sentries, with the exact condition for the next panic |
| `HybridStale.TwinFreeRefines` | qmdb/src/indexer/hybrid/mod.rs:79-101 | if no two stored keys share a truncated hash whenever a unit is merged, a run panics only where the plain store forbids the operation |
| `HybridStale.WriteThenDeletePanics` | qmdb/src/updater.rs:238-240 | after a merge, for any two stored keys with one truncated hash: writing one and then deleting the smallest with that hash, in the same block, panics, though the plain store allows both |
| `HybridStale.FreshRunPanics` | qmdb/src/updater.rs:238-240 | the smallest such run in a fresh shard: create both, merge, write the second, delete the first |
| `HybridIndex.MakeUnit` | qmdb/src/indexer/hybrid/mod.rs:163-198 | a unit starts with its sentry written to the file |
| `HybridIndex.Indexer.AddKv` | qmdb/src/indexer/hybrid/mod.rs:212-233 | the unit of the hash gains the pair, the others are untouched |
| `HybridIndex.Indexer.EraseKv` | qmdb/src/indexer/hybrid/mod.rs:235-259 | the unit of the hash loses the pair, the others are untouched |
| `HybridIndex.Indexer.ChangeKv` | qmdb/src/indexer/hybrid/mod.rs:261-289 | the unit of the hash exchanges the position, the others are untouched |
| `HybridIndex.Indexer.MergeUnit` | qmdb/src/indexer/hybrid/mod.rs:79-101 | one unit is merged and its caches are cleared |
| `HybridIndex.Indexer.ForEachValue` | qmdb/src/indexer/hybrid/mod.rs:304-328 | exactly the visible positions of the truncated hash; what the lookup leaves in the caches of the height |
| `HybridIndex.Indexer.ForEachAdjacentValue` | qmdb/src/indexer/hybrid/mod.rs:330-349 | exactly what the unit offers at this height, staleness included; what the lookup leaves in the caches |
| `UpperTree.Tree.SyncUpperNodes` | qmdb/src/merkletree/tree.rs:251-264 | from a work list that covers every wrong node, all levels become right and the result is the recursive Merkle root over the twig roots padded with null twigs, also when levels are added |
| `UpperTree.Tree.SyncNodesByLevel` | qmdb/src/merkletree/tree.rs:210-249 | one level: the listed nodes and the right border get their Merkle values, the list of parents comes back |
| `UpperTree.Tree.SyncNode` | qmdb/src/merkletree/tree.rs:362-434 | a recomputed node equals the recursive definition |
| `UpperTree.ChangesCovered` | qmdb/src/merkletree/tree.rs:251-264 | a list with the parents of every changed or added twig covers every wrong node, in new levels too |
| `UpperTree.PruneKeeps` | qmdb/src/merkletree/tree.rs:162-186 | pruning keeps every remaining node right and every twig root from `end` on |
| `UpperTree.PruneTransparent` | qmdb/src/merkletree/tree.rs:162-186 | what can be synced before pruning, or after an earlier pruning, can be synced after it, from the same list, for changes above `end`; so the root is the same |
| `UpperTree.PruneForgets` | qmdb/src/merkletree/tree.rs:168-186 | pruning from where the last one ended leaves nothing left of the new edge, in particular no twig root below `end` |
| `UpperTree.Tree.EvictTwigs` | qmdb/src/merkletree/tree.rs:266-284 | an evicted twig keeps its root, now as a node |
| `UpperTree.Tree.RemoveUselessNodes` | qmdb/src/merkletree/tree.rs:168-186 | exactly the nodes left of the edge within reach are removed |
| `UpperTree.Tree.GetEdgeNodes` | qmdb/src/merkletree/tree.rs:188-208 | one edge node per level, each with its Merkle value |
| `UpperTree.Halve` | qmdb/src/merkletree/tree.rs:236-248 | halving an increasing list gives the increasing list of exactly the parents |
| `Twig.SyncMTree` | qmdb/src/merkletree/twig.rs:88-111 | rehashing the rows that a leaf range touches makes all 2047 inner nodes equal a full recomputation |
| `Twig.RangeSuffices` | qmdb/src/merkletree/twig.rs:88-111 | a tree that was right before leaves in the range changed meets the precondition of the sync |
| `Twig.UntouchedKeeps` | qmdb/src/merkletree/twig.rs:88-111 | a node outside the halved ranges does not depend on the changed leaves |
| `ActiveBits.Twigs.Phase1` | qmdb/src/merkletree/tree.rs:686-737 | the first phase hashes exactly the touched pairs of pages and returns the increasing list of their parents |
| `ActiveBits.Twigs.Phase2` | qmdb/src/merkletree/tree.rs:286-359 | the second phase hashes the levels above and returns increasing lists of touched twigs and their parents |
| `ActiveBits.PhasesRestore` | qmdb/src/merkletree/tree.rs:286-359 | after both phases every touched twig passes `check_twig` and every other twig is unchanged and was right already |
| `ActiveBits.ParentsOfTouched` | qmdb/src/merkletree/tree.rs:286-359 | the returned list is increasing and has exactly the parents of touched twigs |
| `TwigFile.File.AppendTwig` | qmdb/src/merkletree/twigfile.rs:55-78 | appending stores the leaves, the upper nodes and the header of the next twig and disturbs nothing |
| `TwigFile.File.GetFirstEntryPos` | qmdb/src/merkletree/twigfile.rs:80-96 | the first entry of a twig is at the end position stored with the twig before |
| `TwigFile.File.GetHashNode` | qmdb/src/merkletree/twigfile.rs:168-190 | every id from 1 to 4095 yields the node of the full tree, others nothing; the cache stays right |
| `TwigFile.File.GetInIgnoredRange` | qmdb/src/merkletree/twigfile.rs:113-162 | an omitted node is rebuilt from its cone of eight leaves |
| `TwigFile.LeafRange` | qmdb/src/merkletree/twigfile.rs:98-111 | the eight leaves chosen for an omitted node are aligned and lie around it |
| `Proof.ProofPath.Check` | qmdb/src/merkletree/proof.rs:70-143 | it accepts iff leaf and page hash to the root, and for a complete path that every stored hash is right; completing fills these in and changes nothing else |
| `Proof.BindingIff` | qmdb/src/merkletree/proof.rs:70-143 | two accepted paths for one serial number and root have equally many upper nodes, and the same content iff they turn the same way |
| `Proof.Binding` | qmdb/src/merkletree/proof.rs:145-191 | two accepted paths whose turns follow the serial number, as decoded ones do, have the same content |
| `Proof.UndirectedDoesNotBind` | qmdb/src/merkletree/proof.rs:70-143 | `check` itself does not compare the turns with the serial number: two accepted paths with different leaves |
| `Proof.FilledAccepts` | qmdb/src/merkletree/proof.rs:70-143 | filling in the hashes of any path yields a path that passes the full check for its own root |
| `Proof.ToBytes` | qmdb/src/merkletree/proof.rs:50-68 | the encoder writes leaf, 11 peers, page, 3 peers, upper peers and root in this order |
| `Proof.BytesToProofPath` | qmdb/src/merkletree/proof.rs:145-191 | the decoder accepts exactly the well-formed words, reads them in the same order and turns by the bits of the serial number |
| `Proof.DecodeThenEncode` | qmdb/src/merkletree/proof.rs:145-191 | encoding a decoded path gives the words back |
| `Proof.EncodeThenDecode` | qmdb/src/merkletree/proof.rs:50-68 | decoding an encoded path gives its content back, and it is accepted iff the path was |
| `Proof.CheckProof` | qmdb/src/merkletree/proof.rs:193-199 | a proof is delivered iff it passes the full check |
| `ProofBuild.CheckedIsSound` | qmdb/src/merkletree/check.rs:83-135 | twigs that pass `check_twig`, now or when they were evicted with no bit left, have the roots that proofs are built for |
| `ProofBuild.GetProof` | qmdb/src/merkletree/tree.rs:827-860 | for a consistent tree the proof of an unpruned number has the right root, leaf and page; it passes the full check iff the sibling twig was not pruned away or is a null twig; bit sn % 256 of its page is the active bit of sn |
| `ProofBuild.OddPruned` | qmdb/src/merkletree/tree.rs:162-186 | four twigs form a consistent tree; pruning it up to twig 1 leaves a consistent state that has lost the root of twig 0 |
| `ProofBuild.OddPruneRejected` | qmdb/src/merkletree/tree.rs:773-825 | in that state the path built for twig 1 is not accepted, and with the root of twig 0 it would be |
| `ProofBuild.GetUpperPathAndRoot` | qmdb/src/merkletree/tree.rs:773-825 | the upper path has the reference nodes and the root, except that a pruned first sibling is read as null |
| `ProofBuild.GetLeftPathInMem` | qmdb/src/merkletree/proof.rs:265-267 | the leaf path from memory is the reference path |
| `ProofBuild.GetLeftPathOnDisk` | qmdb/src/merkletree/proof.rs:269-280 | the leaf path through the sparse file and its cache is the same path |
| `ProofBuild.LeftPathRight` | qmdb/src/merkletree/proof.rs:240-263 | the leaf path hashes from the leaf to the twig tree, turning as the serial number says |
| `ProofBuild.RightPathRight` | qmdb/src/merkletree/proof.rs:201-238 | the page path hashes from the page of active bits to their root, turning as the serial number says |
| `ActiveBits.PageBit` | qmdb/src/merkletree/tree.rs:286-359 | bit sn % 256 of page sn % 2048 / 256 is the active bit of sn |
| `ProofBuild.UpperPathRight` | qmdb/src/merkletree/tree.rs:773-825 | the upper path hashes from the twig root to the node above it in the reference tree |
| `Recover.LiveMeaning` | qmdb/src/flusher.rs:155-160 | live: a number is active iff it was appended and neither its own entry nor a later one names it |
| `Recover.ReplayMeaning` | qmdb/src/merkletree/recover.rs:47-62 | replay: a number from the start on is active iff it was appended and no later entry names it |
| `Recover.ReplayAgreesIff` | qmdb/src/merkletree/recover.rs:47-62 | live run and replay agree on a number iff its own entry does not name it for good |
| `Recover.SelfNamedDiffers` | qmdb/src/merkletree/recover.rs:47-62 | a log of one entry that names itself: inactive when written, active after the replay |
| `Recover.UpdaterLogReplays` | qmdb/src/merkletree/recover.rs:47-62 | in a log that the updater writes no entry names itself, so the live bits and the replayed bits are exactly the active numbers |
| `Recover.LeafAppended` | qmdb/src/merkletree/tree.rs:600-614 | recording each new leaf as the end of the change range keeps the range sufficient for the next sync |
| `Recover.Tree.SetActivation` | qmdb/src/merkletree/tree.rs:565-575 | one bit changes, its block is marked as touched |
| `Recover.Tree.SyncYoungest` | qmdb/src/merkletree/tree.rs:739-759 | the youngest twig tree becomes right and its root is recorded |
| `Recover.Tree.FinishTwig` | qmdb/src/merkletree/recover.rs:69-88 | a full twig gets its left root, by hashing or from the twig file, and an empty twig follows |
| `Recover.Tree.AppendEntry` | qmdb/src/flusher.rs:155-160 | append then deactivate: twigs, leaves and bits are those of the log so far; the touched blocks cover every bit changed since the last sync and the first block of every twig started since |
| `Recover.Tree.EndBlock` | qmdb/src/merkletree/tree.rs:651-684 | the end of a block syncs the youngest twig, forgets exactly the compacted twigs and starts a new round of touched blocks |
| `Recover.Tree.SyncActiveBits` | qmdb/src/merkletree/tree.rs:686-737 | before the end of a block both phases can run on the touched blocks and bring every twig in line with its bits; touched and new twigs are closed and their parents handed to the upper tree |
| `Recover.AppendTracked` | qmdb/src/merkletree/tree.rs:593-632 | appending an entry, also the last of a twig, keeps the touched blocks covering |
| `Recover.ClearTracked` | qmdb/src/merkletree/tree.rs:565-579 | so does clearing the listed bits |
| `Recover.LeafOfEntry` | qmdb/src/merkletree/tree.rs:600-614 | leaf sn % 2048 of twig sn / 2048 is the hash of entry sn |
| `Flushing.Flusher.constructor` | qmdb/src/merkletree/tree.rs:516-519 | the empty twig 0, in the upper tree and as its copy |
| `Flushing.Flusher.Recovered` | qmdb/src/merkletree/recover.rs:262-264 | after a restart the copy shows the bits of the youngest twig |
| `Flushing.Flusher.StartTwig` | qmdb/src/merkletree/tree.rs:620-625 | the copy of a twig that starts shows no bit |
| `Flushing.Flusher.FlushFiles` | qmdb/src/merkletree/tree.rs:651-684 | with both phases: the trees of every twig show its bits in touched blocks and elsewhere what they showed before, for a new twig what the copy shows; a touched one is closed over its left root and passes `check_twig` iff it differs from that in touched blocks only; the list has the parents of touched twigs |
| `Flushing.BitsDetermined` | qmdb/src/merkletree/check.rs:83-124 | the trees of a twig are right for one sequence of bits only |
| `Flushing.PhasesShow` | qmdb/src/merkletree/tree.rs:286-359 | what the trees of a twig show after both phases, whatever they showed before |
| `Flushing.RootRightIff` | qmdb/src/merkletree/check.rs:83-124 | after both phases a touched twig has the root of a right twig iff it differs in touched blocks only |
| `Flushing.FlushIsNext` | qmdb/src/merkletree/tree.rs:664-671 | each flush takes what a twig shows one block further |
| `Flushing.PartShown` | qmdb/src/merkletree/tree.rs:664-671 | over any number of blocks, 512 bits are shown as they are if they were touched since the copy was added for the last time, else as in the copy |
| `Flushing.TwigRightIff` | qmdb/src/merkletree/tree.rs:664-671 | a twig is right iff each part was touched since then or is as in the copy |
| `Flushing.SecondBlock` | qmdb/src/merkletree/tree.rs:664-671 | 512 entries in the first block and one in the second: twig 0 fails `check_twig`, and its root is not that of any right twig with this left root |
| `Recover.Tree.RecoverEntry` | qmdb/src/merkletree/recover.rs:47-90 | deactivate then append, skipping twigs before the oldest: the state of the replay so far; the touched blocks cover every bit that was set |
| `Recover.Tree.ScanEntries` | qmdb/src/merkletree/recover.rs:92-130 | scanning by position visits every entry from the first one of the oldest twig |
| `Recover.Tree.RecoverTwigs` | qmdb/src/merkletree/recover.rs:145-157 | recovery from the oldest twig rebuilds twigs, leaves, left roots and replayed bits |
| `Recover.RecoveredIsLive` | qmdb/src/merkletree/recover.rs:186-268 | recovered and live tree have the same youngest twig, twig tree and left roots; their active bits are equal iff no entry from the oldest twig on names itself for good |
| `Recover.RecoveredExactly` | qmdb/src/merkletree/recover.rs:186-268 | after a restart on a log that the updater wrote, the recovered tree is the live one, active bits included |
| `EntryBuffering.EntryBuffer.constructor` | qmdb/src/entryfile/entrybuffer.rs:65-93 | an empty buffer at an 8-byte aligned position |
| `EntryBuffering.EntryBuffer.Append` | qmdb/src/entryfile/entrybuffer.rs:121-149 | an entry is recorded at the returned position, within one buffer or across two; larger than a buffer is refused |
| `EntryBuffering.EntryBuffer.Spill` | qmdb/src/entryfile/entrybuffer.rs:141-145 | the entry is distributed over the old and the new buffer whatever a recycled buffer contained |
| `EntryBuffering.EntryBuffer.EndBlock` | qmdb/src/entryfile/entrybuffer.rs:97-111 | the mark is recorded with its three values and the current buffer is published |
| `EntryBuffering.EntryBuffer.ReadNextEntry` | qmdb/src/entryfile/entrybuffer.rs:261-311 | the reader delivers exactly the next event, entry bytes and position or block mark; it blocks only when nothing but entries lies ahead; buffers go exactly when they lie more than the margin, in whole buffers, behind the reader's |
| `EntryBuffering.EntryBuffer.TakeMessage` | qmdb/src/entryfile/entrybuffer.rs:267-284 | one received message moves the announced position or ends the block |
| `EntryBuffering.EntryBuffer.ReadExtraInfo` | qmdb/src/entryfile/entrybuffer.rs:313-318 | the three values of the mark just read |
| `EntryBuffering.EntryBuffer.GetAndRemoveBuf` | qmdb/src/entryfile/entrybuffer.rs:151-164 | recycling an old buffer keeps every buffer from `start` on |
| `EntryBuffering.DeliveryRecycles` | qmdb/src/entryfile/entrybuffer.rs:297-298 | delivering an entry keeps start at the initial start or so many whole buffers before the reader's, and no older buffer |
| `EntryBuffering.WithinMargin` | qmdb/src/entryfile/entrybuffer.rs:297-298 | so nothing within the margin is dropped and at most a buffer more is kept |
| `EntryBuffering.HeaderLength` | qmdb/src/entryfile/entry.rs:141-153 | the length read from the first five bytes is that of the entry that `dump` writes: all fields, padded to eight bytes |
| `EntryBuffering.EntryBuffer.GetEntryBzAt` | qmdb/src/entryfile/entrybuffer.rs:174-247 | a lookup of an appended entry returns its bytes, unless it is before `start` or reaches into a buffer that was not given; with the current buffer every entry within the margin behind the reader is found, and one that lies a buffer further back is on disk |
| `EntryBuffering.FirstMsg` | qmdb/src/entryfile/entrybuffer.rs:267-284 | the next message belongs to the first event that sends one |
| `EntryBuffering.ReaderKept` | qmdb/src/entryfile/entrybuffer.rs:121-149 | whatever the writer adds, the reader state stays right |
| `EntryBuffering.AvailableLater` | qmdb/src/entryfile/entrybuffer.rs:299-305 | the buffer after a straddling entry is published once anything later was announced |
| `SegmentedFile.HPFile.constructor` | hpfile/src/lib.rs:96-126 | opening an empty directory or one with the segments of earlier slices; the first write goes to the beginning of the last segment, which is its end iff that is empty |
| `SegmentedFile.HPFile.Append` | hpfile/src/lib.rs:478-543 | a slice is recorded at the returned position, also when it crosses the end of a segment, and what was on disk stays there; longer than the buffer is refused. Within a segment the file stays consistent iff writes go to its end or the bytes fit into the buffer; otherwise a full buffer goes to the cursor, and the bytes of the segment are stated, also when it was completed |
| `SegmentedFile.HPFile.WriteOut` | hpfile/src/lib.rs:294-315 | flushing writes the buffer, padded to 512 bytes only at the end of a segment |
| `SegmentedFile.HPFile.Roll` | hpfile/src/lib.rs:508-540 | a full segment keeps its whole last slice; the next one starts with placeholders of the same length |
| `SegmentedFile.HPFile.Flush` | hpfile/src/lib.rs:294-315 | afterwards every slice of an existing segment is on disk |
| `SegmentedFile.HPFile.ReadBytes` | hpfile/src/lib.rs:354-365 | the bytes that the segment has from a position on, up to the number wanted; nothing iff the segment was pruned |
| `SegmentedFile.HPFile.ReadSlice` | hpfile/src/lib.rs:354-365 | at a returned position these are a prefix of the slice, all of it iff it is on disk |
| `SegmentedFile.HPFile.PruneHead` | hpfile/src/lib.rs:546-570 | slices from the offset on stay readable |
| `SegmentedFile.HPFile.Truncate` | hpfile/src/lib.rs:246-279 | truncating at any size keeps the slices before it, readable as before, and the beginning of the one across it; the file stays consistent iff nothing was buffered |
| `SegmentedFile.HPFile.RunAll` | hpfile/src/lib.rs:246-570 | over any run of appends, flushes, prunes and truncations: a slice on disk that none of them touches stays there |
| `SegmentedFile.HPFile.AppendRunRead` | hpfile/src/lib.rs:246-570 | append, flush, any run that spares the slice, read at the returned position: the original bytes |
| `SegmentedFile.ReopenedOverwrites` | hpfile/src/lib.rs:96-126 | a reopened directory: two appends without a flush write the first of them over the old slice |
| `SegmentedFile.TruncatedComesBack` | hpfile/src/lib.rs:246-279 | a slice is cut off before it was flushed: after the next append and a flush its bytes stand at the position that was given out for the new slice |
| `SegmentedFile.AppendKeeps` | hpfile/src/lib.rs:478-506 | old slices stay where they are, the new one follows the last |
| `SegmentedFile.TruncateKeeps` | hpfile/src/lib.rs:246-279 | cutting the file keeps every slice that ends before the cut, and the beginning of the one across it |
| `InMem.PutInLeaf` | qmdb/src/indexer/inmem.rs:307-374 | inserting into the covering leaf keeps the partition of keys and adds exactly one value |
| `InMem.PutNewLeaf` | qmdb/src/indexer/inmem.rs:307-374 | a new leaf keeps the partition and adds exactly one value |
| `InMem.PutSplit` | qmdb/src/indexer/inmem.rs:334-362 | splitting a full leaf keeps the partition and adds exactly one value |
| `InMem.TakeFromLeaf` | qmdb/src/indexer/inmem.rs:376-394 | removing a pair, and its leaf when empty, removes exactly one value |
| `InMem.ChangeInLeaf` | qmdb/src/indexer/inmem.rs:396-408 | overwriting replaces exactly one value |
| `InMem.PredInLeaf` | qmdb/src/indexer/inmem.rs:437-520 | the pair before the place of a key is the largest smaller key that has values |
| `InMem.PredInPrev` | qmdb/src/indexer/inmem.rs:483-500 | otherwise it is the last pair of the leaf before |
| `InMem.NoPrevLeaf` | qmdb/src/indexer/inmem.rs:483-493 | without an earlier leaf no smaller key has values |
| `InMemUnit.AllocateKeeps` | qmdb/src/indexer/inmem.rs:44-68 | a newly allocated leaf overlaps no other |
| `InMemUnit.Unit.constructor` | qmdb/src/indexer/inmem.rs:297-305 | an empty unit |
| `InMemUnit.Unit.FindKeyAndLeaf` | qmdb/src/indexer/inmem.rs:567-575 | the leaf found is the one that covers the key, or nothing covers it |
| `InMemUnit.Unit.Allocate` | qmdb/src/indexer/inmem.rs:44-68 | fresh, disjoint space in the last or in a new buffer |
| `InMemUnit.Unit.AddKv` | qmdb/src/indexer/inmem.rs:307-374 | the multimap gains exactly this value; leaves stay non-empty, sorted and disjoint |
| `InMemUnit.Unit.AddToFull` | qmdb/src/indexer/inmem.rs:334-372 | the same when the leaf is full: split, replacement or a new leaf behind it |
| `InMemUnit.Unit.EraseKv` | qmdb/src/indexer/inmem.rs:376-394 | succeeds iff the pair is there and removes exactly it |
| `InMemUnit.Unit.ChangeKv` | qmdb/src/indexer/inmem.rs:396-408 | succeeds iff the pair is there and replaces exactly it |
| `InMemUnit.Unit.ForEachValue` | qmdb/src/indexer/inmem.rs:410-435 | hands out exactly the values of the key, until the accessor stops |
| `InMemUnit.Unit.ForEachAdjacentValue` | qmdb/src/indexer/inmem.rs:437-520 | hands out exactly the values of the key, until the accessor stops, and then those of the largest smaller key that has any, the first of them in any case |
| `InMemUnit.Unit.Compact` | qmdb/src/indexer/inmem.rs:526-553 | rebuilding all leaves leaves the multimap unchanged |
| `InMemUnit.Builder.Append` | qmdb/src/indexer/inmem.rs:770-802 | the builder gains exactly one value and its leaves keep the partition |
| `InMemUnit.Builder.Flush` | qmdb/src/indexer/inmem.rs:728-768 | closing a leaf changes no value |
| `InMemUnit.Seek` | qmdb/src/indexer/inmem.rs:144-152 | the first place not below the key |
| `InMemUnit.FindKv` | qmdb/src/indexer/inmem.rs:155-166 | finds the pair iff the leaf has it |
| `Hybrid.AddedOk` | qmdb/src/indexer/hybrid/overlay.rs:31-39 | adding a fresh position makes exactly that pair visible |
| `Hybrid.ErasedOk` | qmdb/src/indexer/hybrid/overlay.rs:41-47 | erasing hides exactly the pairs with that position |
| `Hybrid.AdjacentExactIff` | qmdb/src/indexer/hybrid/unit.rs:257-306 | for any state: the adjacent lookup is exact iff the file has a live record at its own predecessor, or the overlay has a key at least as near, or no visible file record lies from the overlay key up to the erased one |
| `Hybrid.DeliveredIsWanted` | qmdb/src/indexer/hybrid/unit.rs:257-306 | under that condition it delivers exactly the visible pairs at the largest visible smaller key |
| `Hybrid.HiddenIsMissed` | qmdb/src/indexer/hybrid/unit.rs:257-306 | otherwise a visible pair is missed |
| `Hybrid.NothingEverHidden` | qmdb/src/updater.rs:253-256 | if between a visible file record and a dead file key above it there is always an overlay key, nothing is hidden |
| `Hybrid.ExactIffSupported` | qmdb/src/indexer/hybrid/unit.rs:236-340 | for any state: the adjacent lookup is exact for every key iff between every visible file record and every dead file key above it there is an overlay key |
| `Hybrid.StepKeeps` | qmdb/src/indexer/hybrid/unit.rs:236-340 | adding, changing, deleting together with a change of the predecessor, and merging, with any number of positions per key, change the visible pairs as they should; they keep that condition, except exactly for a deletion that exposes a second file record of the key before |
| `Hybrid.RunExact` | qmdb/src/indexer/hybrid/unit.rs:236-340 | in every run of such operations, as long as nothing was exposed, at every moment and for every key, the adjacent lookup is exact |
| `Hybrid.RunExactIff` | qmdb/src/indexer/hybrid/unit.rs:236-340 | every lookup at every moment of a run is exact iff no operation exposes a record |
| `Hybrid.OnePerKeyCovered` | qmdb/src/indexer/hybrid/unit.rs:236-340 | with at most one visible position per key nothing is exposed |
| `Hybrid.LoneEraseHides` | qmdb/src/updater.rs:253-256 | an erase without a change of the predecessor makes the lookup miss it |
| `Hybrid.SecondPositionHides` | qmdb/src/updater.rs:253-256 | a deletion with a change of the predecessor makes the lookup miss the second position of the predecessor, which is in the file |
| `HybridFile.FileWriter.Write` | qmdb/src/indexer/hybrid/file_writer.rs:50-69 | one more record; the index still has the first key of every page, whole or halved |
| `HybridFile.FileReader.Next` | qmdb/src/indexer/hybrid/file_reader.rs:70-112 | the next record that is not erased |
| `HybridFile.MergeInto` | qmdb/src/indexer/hybrid/unit.rs:47-112 | the new file holds exactly the visible pairs in strictly ascending order, with its page index |
| `HybridFile.BinarySearch` | qmdb/src/indexer/hybrid/unit.rs:393-411 | a match, or the place where the key would be inserted |
| `HybridFile.FindPageIdK64` | qmdb/src/indexer/hybrid/unit.rs:393-413 | the last whole first key not above the key; none iff the key is before all |
| `HybridFile.FindPageId` | qmdb/src/indexer/hybrid/unit.rs:379-391 | a page behind which all keys are larger, although halved keys may overshoot |
| `HybridFile.VisitKeeps` | qmdb/src/indexer/hybrid/unit.rs:350-367 | each visited record is accounted for, and the scan ends only when nothing relevant is left |
| `HybridFile.GetFromFile` | qmdb/src/indexer/hybrid/unit.rs:342-377 | all values at the key and, on request, at the largest smaller key of the file, each once; none iff the key is before the first record |
| `HybridUnit.WithoutPrevRight` | qmdb/src/indexer/hybrid/index_cache.rs:184-208 | a cached value-only answer is what the file says |
| `HybridUnit.FullCached` | qmdb/src/indexer/hybrid/index_cache.rs:168-182 | caching a full answer makes no cached answer miss a key |
| `HybridUnit.ValueCachedIff` | qmdb/src/indexer/hybrid/index_cache.rs:168-182 | caching a value-only answer makes the cache miss the key before iff it has two or more values and the file has a smaller key |
| `HybridUnit.ValueSeenIff` | qmdb/src/indexer/hybrid/index_cache.rs:168-182 | a value-only lookup makes the cache of its height miss the key before iff it was not answered from that cache, the file has two records of the key, and it has a smaller key; no other cached answer becomes stale |
| `HybridUnit.BothSeenKeeps` | qmdb/src/indexer/hybrid/index_cache.rs:168-182 | a lookup with the key before makes no cached answer stale |
| `HybridUnit.TwoValuesHideKeyBefore` | qmdb/src/indexer/hybrid/index_cache.rs:168-182 | two values of a key, cached by a value-only lookup, after which the adjacent lookup loses the key before |
| `HybridUnit.CollectValues` | qmdb/src/indexer/hybrid/overlay.rs:57-64 | the overlay values of the key, each once |
| `HybridUnit.GetPrevValues` | qmdb/src/indexer/hybrid/overlay.rs:66-102 | the largest smaller overlay key with all its values |
| `HybridUnit.AllPrevErased` | qmdb/src/indexer/hybrid/unit.rs:261-270 | tells whether all positions of the file predecessor are erased, for positions below 2^47 |
| `HybridUnit.AccessList` | qmdb/src/indexer/hybrid/unit.rs:183-234 | every entry is decoded to its key and handed out once unless erased, until the accessor stops |
| `HybridUnit.Unit.AddKv` | qmdb/src/indexer/hybrid/overlay.rs:31-39 | the overlay gains the pair, a pair that it has is refused; caches stay as right as they were |
| `HybridUnit.Unit.EraseKv` | qmdb/src/indexer/hybrid/overlay.rs:41-47 | the position is hidden, visible or not; caches stay as right as they were |
| `HybridUnit.Unit.ChangeKv` | qmdb/src/indexer/hybrid/overlay.rs:49-55 | erase and add; caches stay as right as they were |
| `HybridUnit.Unit.MergeFiles` | qmdb/src/indexer/hybrid/unit.rs:47-112 | merging leaves the visible pairs unchanged and clears overlay and caches |
| `HybridUnit.Unit.ForEachValue` | qmdb/src/indexer/hybrid/unit.rs:114-181 | hands out exactly the visible values of the key, each once, from cache or file, until the accessor stops; it makes the cache of its height miss the key before iff the answer was not cached yet, the file has two records of the key and a smaller key |
| `HybridUnit.Unit.ForEachAdjacentValue` | qmdb/src/indexer/hybrid/unit.rs:236-340 | hands out, until the accessor stops, the visible pairs of the key and what file and overlay yield before it, each once; when every lookup is exact and the cache does not miss the key before, these are the pairs at the largest visible smaller key |
| `HybridUnit.Unit.Remember` | qmdb/src/indexer/hybrid/index_cache.rs:97-121 | adding to the cache of a height, displacing one of an old height, keeps all cached values right |
| `ChangeSets.ChangeSet.Sort` | qmdb/src/utils/changeset.rs:134-154 | same operations; shards ascend, hashes within a shard, kinds (read, write, create, delete) for one key; equal ones in their old order; the table is right after the first call and counters add up on further calls |
| `ChangeSets.ChangeSet.AddOp` | qmdb/src/utils/changeset.rs:108-132 | the operation is added behind the others; tables are filled by sorting only |
| `ChangeSets.ChangeSet.OpCountInShard` | qmdb/src/utils/changeset.rs:181-183 | the counter of the shard; once sorted, as many operations as `run_in_shard` delivers |
| `ChangeSets.ChangeSet.RunInShard` | qmdb/src/utils/changeset.rs:200-223 | delivers exactly the operations of the shard, in list order |
| `Tasks.Prefetch.constructor` | qmdb/src/uniprefetcher.rs:119-147 | counters start at the sum of what the change sets have counted; a shard without any is told at once |
| `Tasks.Prefetch.RunTask` | qmdb/src/uniprefetcher.rs:119-147 | for change sets sorted at least once, no counter exceeds the operations iff the tables of all change sets are exact |
| `Tasks.Prefetch.FinishOp` | qmdb/src/uniprefetcher.rs:149-172 | in any interleaving: the counter is what is left plus its surplus, and one message was sent iff it is zero |
| `Tasks.Prefetch.ToldMeansReady` | qmdb/src/uniprefetcher.rs:168-170 | when a shard was told, all its operations were prefetched |
| `Tasks.Prefetch.AllTold` | qmdb/src/uniprefetcher.rs:119-173 | when all workers are done, a shard was told exactly once, or never if its counter had a surplus |
| `Tasks.SortedTwice` | qmdb/src/utils/changeset.rs:134-154 | after a second `sort` exactly the shards that have operations have such a surplus |
| `Tasks.IdsIncrease` | qmdb/src/uniprefetcher.rs:124-129 | following the links, task ids increase |
| `Tasks.IdInBlock` | qmdb/src/uniprefetcher.rs:124-129 | for blocks of one to 2^24 tasks the ids run through the blocks in order, and each is the height in the upper and the index in the lower bits |
| `Tasks.Sequencer.RunTaskWithOooId` | qmdb/src/updater.rs:110-124 | after each arrival the tasks that ran are exactly the longest arrived beginning of the chain, in order, once each |
| `Tasks.EverythingRuns` | qmdb/src/updater.rs:110-124 | once a beginning of the chain has arrived, in any order, it has run in order |
| `Witness.MachineAcceptsCuts` | qmdb/src/stateless/witness.rs:158-224 | the stack machine ends with a single node iff the input is a left-to-right cut, and then with the node cut |
| `Witness.RunCut` | qmdb/src/stateless/witness.rs:176-204 | a cut acts on the stack exactly like the node it stands for |
| `Witness.VerifyWitness` | qmdb/src/stateless/witness.rs:158-224 | terminates, and answers true iff the nodes form a cut whose top has the old and the new root, where a node's first value is its old and its second its new one and a node without values takes the next entry of the side list for both; a short side list is the slice panic |
| `WitnessBuild.CutMembers` | qmdb/src/seqads/proof.rs:475-515 | the cut isolating the targets consists of the targets and the off-path siblings |
| `WitnessBuild.CutSorted` | qmdb/src/seqads/proof.rs:536-551 | a cut lists its places from left to right |
| `WitnessBuild.GetPosList` | qmdb/src/seqads/proof.rs:521-533 | a target and the siblings along its path |
| `WitnessBuild.CollectedIsCut` | qmdb/src/seqads/proof.rs:475-515 | collecting siblings and removing ancestors leaves exactly the cut |
| `WitnessBuild.GetPosSet` | qmdb/src/seqads/proof.rs:475-515 | the collected set is the cut below the root of the smallest tree with the last number |
| `WitnessBuild.SortPosList` | qmdb/src/seqads/proof.rs:536-551 | the same places, ordered by their first slot |
| `WitnessBuild.WitnessPlaces` | qmdb/src/seqads/proof.rs:475-509 | the positions to read are the cut from left to right |
| `WitnessTree.UpperValue` | qmdb/src/merkletree/tree.rs:879-944 | the values that witnesses speak of are the recursive Merkle values over the twig roots |
| `WitnessTree.GetHashByNode` | qmdb/src/merkletree/tree.rs:879-944 | for every position that pruning has left, the value stored in memory, on disk, with the active bits or in the upper nodes is that value |
| `WitnessTree.CutReadable` | qmdb/src/seqads/proof.rs:475-509 | everything in the cut can be read if neither the twigs of the numbers nor their siblings were pruned |
| `WitnessTree.LeafOfNumber` | qmdb/src/stateless/utils.rs:1-4 | the leaf place of a serial number has the hash of its entry |
| `WitnessTree.PageOfNumber` | qmdb/src/stateless/utils.rs:6-16 | the page place of a serial number has a page whose bit sn % 256 is its active bit |
| `WitnessTree.GetWitness` | qmdb/src/seqads/proof.rs:448-518 | the emitted nodes are the cut from left to right with the hashes of the tree, whose root is the recursive Merkle root; for every number they hold its own leaf and the page with its active bit, at the places of the source |
| `WitnessBuild.TargetsAntichain` | qmdb/src/stateless/utils.rs:1-16 | no leaf lies below a page of active bits and no target below another |
| `WitnessBuild.CutValue` | qmdb/src/stateless/witness.rs:158-224 | a cut whose targets were updated has the old and the new Merkle value on top |
| `WitnessBuild.WitnessAcceptedIff` | qmdb/src/stateless/witness.rs:158-224 | the witness of the accessed numbers, built as nodes with the values of the old and the new tree and a side list, is accepted for the values on top of it, and for the roots of the old and the new tree iff both trees have the height that the last number alone would give |
| `WitnessBuild.WireCarries` | qmdb/src/stateless/witness.rs:227-261 | the emitted nodes and side list say, node by node, the values of the two trees, whichever unchanged nodes go to the side list |
| `WitnessBuild.VerifyBuilt` | qmdb/src/stateless/witness.rs:158-224 | `verify_witness` run on that witness answers true for the two roots exactly in that case |
| `WitnessBuild.VerifySingle` | qmdb/src/stateless/witness.rs:158-224 | a single node is accepted iff its first value is the old root and its second the new one |
| `WitnessBuild.FirstEntryOnly` | qmdb/src/seqads/proof.rs:472-474 | two twigs, entry 0 accessed: accepted for the root of twig 0, not for the root of the tree |
| `WitnessBuild.GrowthNotAccepted` | qmdb/src/seqads/proof.rs:472-474 | when the new tree is higher than the old one, no witness is accepted for both roots |
| `WitnessBinding.BindingIff` | qmdb/src/stateless/witness.rs:158-224 | the places of an accepted witness bind its values to the root iff they run from left to right, start at the left end and, if there is only one, are at the level of the root |
| `WitnessBinding.WitnessBinds` | qmdb/src/stateless/witness.rs:158-224 | then the old and the new value of every node are those of the two trees |
| `WitnessBinding.BuiltInPlace` | qmdb/src/seqads/proof.rs:475-509 | the witnesses that are built meet that condition |
| `WitnessBinding.UnorderedDoesNotBind` | qmdb/src/stateless/witness.rs:173-177 | the two halves of a tree exchanged: accepted, both wrong |
| `WitnessBinding.MisplacedDoesNotBind` | qmdb/src/stateless/witness.rs:219-223 | the root given out as any other node: accepted, wrong |

## Left out

- Hash functions, AES-GCM encryption of entries and index pages (`tee_cipher`), O_DIRECT and io_uring reads, `PreReader`, the shared entry cache: reading an entry is a lookup in the log.
- Races within one operation, locks, barriers, bounded channels that block, liveness.
- The serialised form of entries beyond its length field, the byte layout of index leaves and of 14-byte records, the data buffer of change sets: pairs and operations are modelled as values.
- Integer widths: 64-bit wrap-around of positions and numbers, the 16-bit capacity of leaves, the 32-bit counters of change sets.
- The heuristics that decide when an index unit is compacted or merged, and buffered file reading in the hybrid reader (a cursor over records here).
- Maps of twigs and nodes split into shards by `get_shard_idx_and_key` are single maps here; `NodePos` packing and the byte codec of edge nodes are pairs.
- `recover_upper_nodes`, `recover_inactive_twig_roots` and recovery without a twig file, which starts before the oldest twig.
- `HPFile::size_on_disk`, `MetaDB`, `BlockPairTaskHub`, `WitnessListUpdater`, witness bytes, active-bits-only serial numbers in witnesses, metrics and benchmarks.
- Recover.Tree.SyncActiveBits: speaks of twigs that show the bits of the last sync; what `flush_files` leaves of them from block to block is proved with `Flushing.Flusher.FlushFiles`.
- Updater.Shard.Enumerate: the order within a list of candidates is open, and the steps allow every order.
- Updater.Shard.Compact: the scanner can read every entry of the log at once, where the source waits until an entry was flushed.
- HybridUnit.Unit.AddKv: positions are never used twice, so a position that was erased since the last merge is not added again.
- HybridUnit.Unit.EraseKv: the overlay does not hold the position under another key, for the same reason.
- HybridUnit.Unit.ChangeKv: both, for the same reason; that the updater meets these conditions in every state is proved with `HybridRuns.EventKeeps`.
- HybridIndex.Indexer: `key_exists` by active bits of serial numbers and the counters behind `len` are read off the set of index pairs (`ShardProofs.IndexedIffActive`); lookups give the whole list, and the accessors of `Updater` stop in it.
- SegmentedFile.HPFile.Append: when an unsafe append also completes its segment, the contract states the bytes of that segment; whether the slices happen to be among them depends on the bytes, since the padding can stand in for lost zeros.
- WitnessTree.GetWitness: numbers of twigs that do not exist yet are not read; their null leaves would come from a twig that the twig file does not have.
- SegmentedFile.HPFile.Truncate: sizes within the file and not below the pruned part; anything else is a file system error.
