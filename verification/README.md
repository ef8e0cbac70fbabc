# A verified model of cosmprund

cosmprund prunes the block, state and application databases of a stopped CometBFT /
Cosmos SDK node. This project models its three connected parts and proves what each of
them does to every possible database, and what they do together.

1. **Height ranges over byte-ordered keys** (`cmd/generic_chain.go`). A database orders
   its keys by bytes, so `H:1000` comes before `H:999`. `deleteHeightRange` makes one
   half-open scan for each digit length, filters what it meets by the parsed number, and
   stops after a scan that deleted nothing. The model has bytes, a decimal printer and
   parser, databases with ordered range scans and atomic batches, and the loops
   themselves. The theorems give the exact deletion set for every content, say exactly
   when the early exit matters, and carry this over to whole block, state and
   application databases, to block parts and to crashes in the middle.
2. **The multi-version root store** (`internal/rootmulti/store.go`). A class with the
   fields of the source: mount, load with upgrades, commit, prune, roll back, snapshot
   and restore. Each method is proved against a function on the state, and the theorems
   are about those functions: versions in lockstep over all runs, reloading, replaying
   an interrupted commit, upgrades that move data, and the snapshot round trip.
3. **The glue that must preserve state** (`cmd/pruner.go`, `cmd/sei.go`): the pruning of
   the application state, the choice of the height to prune, the garbage collection by
   copy and swap, and the Sei layout over an order-preserving integer code. The
   end-to-end theorem says that the pruned application database still loads to the same
   latest state.

## Files

| file | content |
|---|---|
| `Bytes.dfy`, `Decimal.dfy`, `Float.dfy`, `Database.dfy` | byte order, numerals and their order, rounding to floating point, databases |
| `HeightRange.dfy` | `deleteHeightRange`, and what holds of it for every parser and content |
| `HeightRangeExact.dfy`, `HeightRangeTheorems.dfy`, `BlockPartTheorems.dfy` | the exact deletion sets |
| `BlockStore.dfy`, `BlockStoreTheorems.dfy` | several ranges in one database; block, state and application databases |
| `OrderedCode.dfy`, `Sei.dfy` | the ordered integer code and the Sei range delete |
| `GarbageCollection.dfy` | `gcDB` |
| `Iavl.dfy` | the versioned trees as the root store uses them |
| `MultiStore.dfy`, `MultiStoreLoading.dfy` | commit, load, roll back and prune as functions of the state |
| `MultiStoreTheorems.dfy`, `MultiStoreRuns.dfy`, `MultiStoreReplay.dfy`, `MultiStoreSnapshot.dfy` | lockstep, runs, replay and upgrades, snapshots |
| `MultiStoreCrash.dfy`, `MultiStoreUpgradeCrash.dfy` | restarts after a crash, after an upgrade and without one |
| `MultiStoreSound.dfy` | soundness of all trees of a run |
| `MultiStoreOutcomes.dfy` | when commits, loads and rollbacks succeed, and what each kind of substore is afterwards |
| `RootStore.dfy` | the root store as a class, method by method |
| `PruneApp.dfy`, `PruneCmt.dfy` | `PruneAppState` and `PruneCmtData`, end to end |
| `Layout.dfy` | the keys, paths and codes, spelled out |

Loops over Go maps take the keys in an arbitrary order; the sequences `order`, `named`,
`mounted` and `visited` in contracts are the order of that call. IAVL trees keep their
shape, and their rebalancing, their hash and the root hash are parameters (`Library`), so
the theorems hold for every such choice. A panic or an error return of the source is a
result (`ok` is false, `None`), and contracts say what it leaves.

## Where the code and its documentation differ

The model follows the code. Each difference is stated and its exact extent proved.

- The comment on `deleteHeightRange` (`cmd/generic_chain.go:179-183`) promises the closed
  range up to `endHeight`. The code always spares one height, `endHeight` itself when all
  its digits but the last are 9 and otherwise the longest run of nines below it, never
  deletes height 0, and deletes nothing at all when `endHeight` is a power of ten, which
  the comment's own example is (`HeightRangeTheorems.PromiseMetIff`, `CommentExampleIsIdle`;
  for parts `BlockPartTheorems.PartsPromiseMetIff`).
  The recorded base of the block store moves all the same.
- For block parts every run of nines is spared (9, 99, 999, ...), because `:` sorts above
  `9` (`BlockPartTheorems.FullLoopOnParts`).
- The bounds of a scan go through floating point. They are the numbers they stand for
  exactly for an `endHeight` up to 2^53 and for the even ones below 10^16
  (`HeightRangesExact.BoundsExactIff`); the theorems above are for those up to 2^53. At
  2*10^16 a bound rounds up to a number with a digit more (`HeightRangesExact.InexactBound`).
- On contents with gaps the early exit can leave more than that; the condition is
  `ExitHarmless` (`HeightRangeTheorems.EarlyExitRefinesFullLoopIff`). Height 5 alone is left
  with an `endHeight` of 25 (`HeightRangeTheorems.LonelyHeightIsLeft`).
- The README of the repository says that `--keep-versions` versions of the application
  state are kept. The `max` at `cmd/pruner.go:88` always selects the newest, so exactly
  one is left of the store it looks at. A store keeps what was promised exactly when as many
  of its versions are at least as new as that one, or all are older
  (`PruneApps.KeepVersionsHonouredIff`, `Honours`); with no store ahead of the metadata that is
  when no more than one is to be kept or the store has no more
  (`PruneApps.HonoursIfNothingAhead`).
  The index is in range exactly for a flag from 1 to 2^63 plus the number of versions
  (`PruneApps.KeepVersionsIsIgnored`); 0 and 2^64-1, which is taken for -1, are past the
  end (`PruneApps.KeepVersionsPastTheEnd`).
- If an interrupted commit left some store ahead of the metadata, pruning can delete the
  version the metadata names. It keeps it exactly when the store whose versions were
  looked up has nothing newer (`PruneApps.ChosenStoreDecides`), and whichever store that
  is exactly when no store is ahead (`PruneApps.EveryChoiceKeepsStateIff`);
  `PruneApps.InterruptedCommitLosesState` is an example.
- A `<name>_gc.db` left by an earlier run is merged into the collected database
  (`GarbageCollection.ContentsPreservedIff`; an example is
  `GarbageCollection.StaleEntryIsMerged`), and a database whose number of entries is a
  multiple of 10,000 is kept as it is.
- The comment at `cmd/sei.go:51-52` takes every admitted prefix code for one byte; the
  guard also admits 64, which has two (`SeiStores.GuardAdmitsOneLongPrefix`), and under
  which any key in range makes the call panic (`SeiStores.LongPrefixAlwaysPanics`).
- Of the commit infos below the pruned height only those are in danger that the scans
  reach (`CmtPruning.CommitInfoLostIff`). With more blocks to keep than there are, the
  pruned height wraps around to beyond every block (`CmtPruning.PruneHeightBelowTipIff`).
- A process that dies inside `RollbackToVersion` after some store was cut back leaves a
  database that does not load, unless the target is not behind the latest version
  (`MultiStoreCrash.CrashedRollbackLoadsIff`); with versions 1 and 2 and target 1 it does not
  (`MultiStoreCrash.DiedRollbackDoesNotLoad`).
- The comment at `internal/rootmulti/store.go:1205-1207` relies on the replay to complete an
  upgrade whose commit was interrupted. Commit info and saved trees are completed
  (`MultiStoreUpgradeCrash.CrashedUpgradeReplays`), except that a store renamed from one
  that the commit info does not list can lose the data: it survives every crash exactly
  when `RenameSafe` holds (`MultiStoreUpgradeCrash.RenameSurvivesIff`,
  `UnsafeRenameLosesData`). What the replay writes to a store that already has the version
  is not undone (`MultiStoreUpgradeCrash.ReplayedWritesStayIff`).

## Model

| member | source | states |
|---|---|---|
| Decimal.ParsePrinted | cmd/generic_chain.go:175-177 | the height parser reads back every printed 64-bit height |
| Decimal.ParsedExactly | cmd/generic_chain.go:170-177 | exactly the prints of the 64-bit numbers are parsed, with any number of zeros before them |
| Decimal.PrintParsed | cmd/generic_chain.go:175-177 | a numeral without leading zero that parses is the printed form of its value |
| Decimal.BeforeColonOf | cmd/generic_chain.go:170-173 | the two-part parser sees exactly the digits before the first colon |
| Decimal.LongerOrder | cmd/generic_chain.go:201-204 | byte order of a numeral, whatever follows it, against one no longer: compare the leading digits |
| Decimal.ShorterOrder | cmd/generic_chain.go:201-204 | byte order of a numeral against a longer one: compare with the longer one's leading digits |
| Decimal.ShorterOrderColon | cmd/generic_chain.go:201-204 | a part key's number against a longer numeral: the colon makes the comparison strict |
| HeightRanges.DeleteHeightRange | cmd/generic_chain.go:184-257 | the database ends with exactly the surviving keys and their values, the count is the drop in size, and every batch on the way removed prunable keys only |
| HeightRanges.PrunePass | cmd/generic_chain.go:201-249 | one scan removes exactly the prunable keys of its half-open range in one batch and counts them |
| HeightRanges.CollectBatch | cmd/generic_chain.go:212-235 | the batch deletes the keys that parse to a height up to endHeight, and no key that does not parse |
| HeightRanges.OnlyPrunableDeleted | cmd/generic_chain.go:212-235 | for every content and parser, only keys with the prefix and a parsed height up to endHeight disappear |
| HeightRanges.ScannedKeyHasPrefix | cmd/generic_chain.go:213-218 | no scan yields a key shorter than, or without, the prefix, so slicing it off is safe |
| HeightRanges.AllPassesDeleteHits | cmd/generic_chain.go:193-254 | without the early exit the loop deletes exactly the keys some scan hits |
| HeightRanges.EarlyExitDeletesLess | cmd/generic_chain.go:250-253 | the early exit never deletes more |
| HeightRanges.SecondCallIsIdle | cmd/generic_chain.go:184-257 | a second identical call deletes nothing, even after an early exit |
| HeightRanges.OtherKeysDoNotMatter | cmd/generic_chain.go:184-257 | what happens under a prefix does not depend on keys elsewhere |
| HeightRanges.TopTwoScansSuffice | cmd/generic_chain.go:193-254 | when the first two scans hit all that any scan hits, the early exit is harmless exactly when there is nothing to delete or the first scan finds something |
| Floats.Float64IsNearest | cmd/generic_chain.go:194-195 | the conversion to floating point gives the nearest number of 53 significant bits, and of two equally near ones the even one |
| HeightRangesExact.ExactBounds | cmd/generic_chain.go:194-195 | up to 2^53 the bounds computed in floating point are the powers of ten and endHeight they stand for |
| HeightRangesExact.ExactBoundsFrom | cmd/generic_chain.go:194-195 | with a start above 0 the lower bound is the larger of the start and the power of ten |
| HeightRangesExact.BoundsExactIff | cmd/generic_chain.go:194-195 | for every 64-bit endHeight from 1 on, all its bounds are those numbers exactly when it is at most 2^53, or even and below 10^16 |
| HeightRangesExact.InexactBound | cmd/generic_chain.go:194-195 | an example of the rest: at 2*10^16 the bound of the 16-digit scan rounds to a 17-digit number |
| HeightRangesExact.HitsHeight | cmd/generic_chain.go:193-235 | a scan deletes the key of a height exactly when an arithmetic condition on leading digits holds |
| HeightRangesExact.HitsPart | cmd/generic_chain.go:193-235 | the same for the part keys of a height |
| HeightRangesExact.HitIsHeight | cmd/generic_chain.go:212-235 | whatever the plain parser lets a scan delete is the printed key of a height |
| HeightRangesExact.HitIsHeightOrPart | cmd/generic_chain.go:212-235 | whatever the two-part parser lets a scan delete is the key of a height or of a part |
| HeightRangesExact.UnsparedIsReached | cmd/generic_chain.go:193-254 | every height up to endHeight but one is reached by some scan |
| HeightRangesExact.SparedIsUnreached | cmd/generic_chain.go:193-254 | that one height is reached by none |
| HeightRangeTheorems.FullLoopDeletesAllButOne | cmd/generic_chain.go:193-254 | for every content and an endHeight up to 2^53, the loop without early exit deletes exactly the heights from 1 to endHeight but the spared one |
| HeightRangeTheorems.LoopRefinesHeights | cmd/generic_chain.go:193-254 | the loop over keys is the same loop over the numbers that are present |
| HeightRangeTheorems.LaterScans | cmd/generic_chain.go:250-253 | once only powers of ten are left, the loop removes them all exactly when they are consecutive |
| HeightRangeTheorems.LoopRemovesAllIff | cmd/generic_chain.go:193-254 | the loop with early exit leaves at most the spared height exactly when the exit is harmless |
| HeightRangeTheorems.EarlyExitRefinesFullLoopIff | cmd/generic_chain.go:193-254 | for every content and an endHeight up to 2^53, the loops with and without early exit agree exactly when the exit is harmless |
| HeightRangeTheorems.PowerOfTenIsIdle | cmd/generic_chain.go:193-254 | with endHeight 0 or a power of ten a call deletes nothing, with either parser |
| HeightRangeTheorems.ConsecutiveHeightsDeleted | cmd/generic_chain.go:184-257 | on consecutive heights b..t a call keeps the heights above endHeight and the spared one, no more and no less |
| HeightRangeTheorems.PromiseMetIff | cmd/generic_chain.go:179-184 | the closed range the comment promises is gone exactly when height 0 and the spared height were absent and the exit is harmless |
| HeightRangeTheorems.LonelyHeightIsLeft | cmd/generic_chain.go:250-253 | an example of a gap: height 5 alone, with endHeight 25, is doomed and left |
| HeightRangeTheorems.CommentExampleIsIdle | cmd/generic_chain.go:179-183 | the comment's own example deletes nothing |
| BlockPartTheorems.FullLoopOnParts | cmd/generic_chain.go:170-257 | for every content, the full loop deletes the parts of all heights up to endHeight except the spared ones |
| BlockPartTheorems.EarlyExitOnPartsIff | cmd/generic_chain.go:170-257 | on part keys the early exit is harmless exactly when there is nothing to delete or the first scan finds something |
| BlockPartTheorems.ConsecutivePartsDeleted | cmd/generic_chain.go:170-257 | with at least one part per height from b to t, the parts that stay are those above endHeight and of the spared heights |
| BlockPartTheorems.PartsPromiseMetIff | cmd/generic_chain.go:170-183 | on part keys the promised closed range is gone exactly when no part of height 0 or of a spared height was there, and there is nothing to delete or the first scan finds something |
| BlockStores.PruneKeys | cmd/generic_chain.go:124-138 | several ranges in turn leave what the ranges compute one after the other, and no batch removes a key no range may prune |
| BlockStores.IndependentJobs | cmd/generic_chain.go:124-138 | ranges whose prefixes are not prefixes of each other do not interfere: each leaves what it would leave alone |
| BlockStores.PrefixRange | cmd/generic_chain.go:140-144 | incrementing the last byte of a prefix bounds exactly the keys with that prefix, unless that byte is 255 |
| BlockStores.DeleteAllByPrefix | cmd/generic_chain.go:140-166 | all and only the keys with the prefix go, in one batch, and are counted |
| BlockStores.PruneBlockKeys | cmd/generic_chain.go:68-84 | the keys left by the five ranges and the BH: deletion; every state on the way keeps the blocks above the pruned height |
| BlockStores.PruneBlockStore | cmd/generic_chain.go:51-94 | the whole new database with its new base, the order of the writes, and that an undecodable record stops it before any change |
| BlockStores.RecordAfterPruning | cmd/generic_chain.go:51-93 | the record afterwards: the height after pruneHeight, wrapping at 2^63, and the stored height, 0 without a record |
| BlockStores.BlockKeyspaces | cmd/generic_chain.go:42-48 | the keyspaces of the block database are disjoint, from each other, from BH: and from the blockStore record |
| BlockStores.PruneStateStore | cmd/generic_chain.go:96-103 | the state database keeps exactly what its two ranges leave |
| BlockStores.PruneAppStore | cmd/generic_chain.go:105-112 | the application database loses only commit infos, up to pruneHeight-1 with its wrap-around |
| BlockStores.PredecessorWraps | cmd/generic_chain.go:105-112 | the bound pruneHeight-1 is the one 64-bit number whose successor is pruneHeight, so 0 gives the largest |
| BlockStoreTheorems.BlockKeyspacesDoNotInterfere | cmd/generic_chain.go:51-94 | each keyspace ends as if only its own range had run, BH: is empty, every other key stays |
| BlockStoreTheorems.WholeBlockStore | cmd/generic_chain.go:51-94 | on blocks b..t: exactly which header, commit and part keys are left, for every height |
| BlockStoreTheorems.WholeBlockStoreAtPowerOfTen | cmd/generic_chain.go:51-94 | at a power of ten only the BH: keys go |
| BlockStoreTheorems.KeptBlocksUntouchable | cmd/generic_chain.go:68-84 | no entry of a block above the pruned height may be deleted by any range |
| BlockStoreTheorems.CrashLosesNoKeptBlock | cmd/generic_chain.go:68-92 | in every state before the last write each entry of a kept block and the blockStore record are intact |
| BlockStoreTheorems.StateKeyspacesDoNotInterfere | cmd/generic_chain.go:96-103 | the two keyspaces of the state database end as if each range had run alone |
| Layouts.BlockKeysSpelled | cmd/generic_chain.go:34-54 | the prefixes H:, C:, EC:, SC:, P:, BH:, abciResponsesKey:, consensusParamsKey: and the key blockStore |
| Layouts.PrefixEndsSpelled | cmd/generic_chain.go:140-144 | the range of BH: ends at BH;, and a last byte 255 wraps to 0 |
| Layouts.BlockEntriesSpelled | cmd/generic_chain.go:24-33 | the header of block 120 is H:120, its part 3 is P:120:3 |
| Layouts.AppKeysSpelled | internal/rootmulti/store.go:36-37 | s/latest, s/ and the version, s/k: with the name and a slash |
| Layouts.SeiKeysSpelled | cmd/sei.go:11-27 | the first bytes of the pruned Sei keys are 0x80, 0x81, 0x82, 0x86, 0x8e and 0x85; 300 takes two bytes |
| Layouts.PathsSpelled | cmd/pruner.go:107-163 | state.db and its copy state_gc.db |
| Layouts.LimitsSpelled | internal/rootmulti/store.go:974-975 | a node in a snapshot is at most 127 high; the limits of 64-bit and of exact floating-point numbers; a batch of the collection has 10,000 entries |
| OrderedCode.EncodingPreservesOrder | cmd/sei.go:55-59 | codes of natural numbers are ordered as the numbers, whatever their lengths |
| OrderedCode.CodeAgainstCode | cmd/sei.go:55-59 | a code followed by anything is below another code exactly when its number is smaller |
| OrderedCode.ParseEncoded | cmd/sei.go:74-79 | parsing a 64-bit number's code followed by anything gives the number and the rest |
| OrderedCode.OneByteIff | cmd/sei.go:49-53 | exactly the numbers from -64 to 63 have codes of one byte |
| OrderedCode.CodesOrderedAsNumbers | cmd/sei.go:55-62 | whatever follows them, codes are ordered as their numbers, negative ones included, and equal numbers as what follows |
| OrderedCode.ParseEncodedInt | cmd/sei.go:74-79 | the code of every 64-bit number, negative or not, parses back with exactly what follows it |
| OrderedCode.CutCodeDoesNotParse | cmd/sei.go:75-79 | a code that breaks off does not parse |
| SeiStores.DeleteSeiRange | cmd/sei.go:48-98 | for every content: when it panics, and otherwise exactly which keys go and how many |
| SeiStores.KeyOfHeight | cmd/sei.go:48-91 | under every one-byte prefix, for every 64-bit height and bounds and anything that follows: when the key is scanned, when the scan gives up on it, and when it is deletable |
| SeiStores.CutKeyIsSkipped | cmd/sei.go:75-79 | a key whose height breaks off is neither deleted nor given up on |
| SeiStores.RangeIsNumeric | cmd/sei.go:55-88 | a well-formed key is in the scanned range exactly when its height is in [0, end), parses to it, and leaves no unexplained rest |
| SeiStores.SeiRangeIsNumericFilter | cmd/sei.go:48-98 | on well-formed contents the range delete is the filter by height below endHeight, and neither the skip nor the panic is reached |
| SeiStores.GuardAdmitsOneLongPrefix | cmd/sei.go:49-53 | of the prefixes the guard admits only 64 has a code longer than one byte |
| SeiStores.LongPrefixAlwaysPanics | cmd/sei.go:49-84 | under that prefix every key in range stops the scan, so the call panics as soon as there is one |
| SeiStores.PruneSeiKeys | cmd/sei.go:30-36 | prefixes one after the other, the run ending at the first panic, values unchanged |
| SeiStores.PrefixesAreFiltered | cmd/sei.go:29-46 | on well-formed contents a run removes exactly the heights below endHeight under its prefixes |
| SeiStores.PruneSeiBlockAndStateStore | cmd/sei.go:29-46 | the outcome on both databases, including that a panic on the first leaves the second alone |
| SeiStores.WholeSeiStores | cmd/sei.go:29-46 | on well-formed databases exactly the entries below the end of block metas, parts and commits, and of consensus parameters, block responses and validators, go |
| SeiStores.OtherSeiKeysStay | cmd/sei.go:11-27 | entries of the other prefixes stay at every height |
| GarbageCollection.GcDB | cmd/pruner.go:101-167 | what the data directory holds afterwards, and that at no moment the live data is missing from both paths |
| GarbageCollection.CopyLive | cmd/pruner.go:119-144 | flushed entries plus the pending batch are the iterated prefix; the count is the number of entries modulo 10,000 |
| GarbageCollection.ContentsPreservedIff | cmd/pruner.go:101-167 | the contents are preserved exactly when the copy is dropped or no leftover copy has foreign keys; the scratch path is gone |
| GarbageCollection.ScratchIsGone | cmd/pruner.go:107-163 | the copy is never left behind |
| GarbageCollection.StaleEntryIsMerged | cmd/pruner.go:101-167 | an example: a leftover copy with one entry adds it to the live database |
| GarbageCollection.StaleEntryIsMergedIff | cmd/pruner.go:121-156 | an entry only an old copy has gets in unless the number of live entries is a multiple of 10,000 |
| GarbageCollection.OthersUntouched | cmd/pruner.go:151-164 | no other database of the directory changes |
| Iavl.ExportDeterminesTree | internal/rootmulti/store.go:834-1012 | importing the exported nodes of a sound tree yields the same tree |
| Iavl.StampMarksNewNodes | internal/rootmulti/store.go:892-915 | saving gives the version to exactly the new nodes of the export and changes nothing else |
| Iavl.LoadTreeIff | internal/rootmulti/store.go:1031-1036 | which version of a store loads, and when one does |
| Iavl.DeletedVersions | internal/rootmulti/store.go:692-723 | the versions above the height are left, or all when none is |
| Iavl.LawsCanBeMet | internal/rootmulti/store.go:310-342 | the laws assumed of updates (contents, soundness) can be met together, whatever the hashes |
| MultiStores.KeysApart | internal/rootmulti/store.go:1014-1022 | commit infos, the latest version and the trees of the substores live under different keys |
| MultiStores.CommitAllCommitsEach | internal/rootmulti/store.go:1198-1238 | commitStores succeeds exactly when each substore can save, and commits each independently of the others |
| MultiStores.HashesOfExactly | internal/rootmulti/store.go:513-540 | a commit info is hashed over exactly the names of its entries, each with its hash |
| MultiStoreLoading.EmptiedIsEmpty | internal/rootmulti/store.go:310-326 | deleting a substore leaves nothing in it |
| MultiStoreLoading.FilledHasAll | internal/rootmulti/store.go:329-342 | moving data gives the new substore its own entries overridden by all of the old one's |
| MultiStoreLoading.LoadAllLoadsEach | internal/rootmulti/store.go:241-288 | the load loop succeeds exactly when each store loads, and what it then holds and drops, store by store |
| MultiStoreLoading.RollbackAllRollsBackEach | internal/rootmulti/store.go:1100-1110 | the rollback loop succeeds exactly when each IAVL store can load the target, cuts each back independently, and touches neither the latest version nor a commit info |
| MultiStoreLoading.PruneAllPrunesEach | internal/rootmulti/store.go:692-723 | pruning cuts each IAVL store independently and touches no metadata |
| MultiStoreTheorems.CommitLockstepIff | internal/rootmulti/store.go:462-509 | after Commit all kept IAVL stores are at the new version exactly when each was ready for it |
| MultiStoreTheorems.CommitKeepsLockstep | internal/rootmulti/store.go:462-509 | Commit on a healthy store ends with stores, metadata on disk and listed hashes all at the new version |
| MultiStoreTheorems.LoadReadyIff | internal/rootmulti/store.go:203-299 | after a load every kept store is ready for the next Commit exactly when a check on the commit info and histories passes beforehand |
| MultiStoreTheorems.LoadKeepsHealthy | internal/rootmulti/store.go:203-299 | a load with upgrades that passes the check leaves a healthy store; added and renamed stores catch up at the next Commit |
| MultiStoreTheorems.LockstepReloads | internal/rootmulti/store.go:193-299 | a store in lockstep, opened again with the same mounts, loads with the same commit info and trees |
| MultiStoreTheorems.RollbackRestoresTarget | internal/rootmulti/store.go:1095-1115 | after a rollback every store has the tree of the target and no newer version, metadata agrees, and the next Commit makes target+1 |
| MultiStoreTheorems.RebuiltMetadataLoads | internal/rootmulti/store.go:1074-1092 | rebuilding the metadata and loading it ends in lockstep |
| MultiStoreOutcomes.CommitSucceedsIff | internal/rootmulti/store.go:1198-1217 | Commit succeeds exactly when no substore that is behind has another tree, by its hash, under the version it is to save |
| MultiStoreOutcomes.CommitOfNewVersionsSucceeds | internal/rootmulti/store.go:1198-1217 | so a Commit whose versions are all new succeeds, on empty stores as well |
| MultiStoreOutcomes.CommitOutcome | internal/rootmulti/store.go:462-509 | what each kind of kept substore is after Commit, which versions it has on disk, and its entry in the commit info |
| MultiStoreOutcomes.CommitForgetsRemoved | internal/rootmulti/store.go:462-509 | exactly the stores to be removed leave the substores, mounts and names, nothing else is lost, and what is not kept has no entry |
| MultiStoreOutcomes.LoadSucceedsIff | internal/rootmulti/store.go:203-299 | with any upgrades, a load succeeds exactly when the commit info is there and each mount passes a check on it, the histories and the kind of its key |
| MultiStoreOutcomes.LoadOutcome | internal/rootmulti/store.go:1014-1072 | after a load without upgrades exactly the mounted stores are there, each of its kind, the in-memory ones empty |
| MultiStoreOutcomes.InMemoryStoresAcrossCommit | internal/rootmulti/store.go:1054-1070 | over a load, writes and a Commit a transient store ends empty and a memory store keeps its entries |
| MultiStoreOutcomes.RollbackSucceedsIff | internal/rootmulti/store.go:1095-1115 | with matching mounts a rollback succeeds exactly when the target is positive, every IAVL store has it, and none has a version before its initial one |
| MultiStoreRuns.RunsStayInLockstep | internal/rootmulti/store.go:203-1162 | over every run of writes, mounts, loads, commits, rollbacks, restores, prunings and crashes inside a commit, a rollback or a restore, each Commit, Rollback and Restore ends in lockstep |
| MultiStoreRuns.MostRecentIsOnDisk | internal/rootmulti/store.go:203-1162 | at every moment of every run, crashes included, the disk holds the trees and the commit info of the most recent Commit, Rollback or Restore, and metadata that names them |
| MultiStoreRuns.EveryMomentReloads | internal/rootmulti/store.go:193-299 | at every moment of every run a new process that mounts those stores loads that state |
| MultiStoreRuns.MetadataIsMostRecent | internal/rootmulti/store.go:1143-1162 | over every run the metadata is that of the most recent Commit, Rollback or Restore, never a stale record above a rollback's target |
| MultiStoreRuns.EmptyStoreIsHealthy | internal/rootmulti/store.go:88-102 | a new store on an empty database satisfies the invariant that runs start from |
| MultiStoreRuns.StepKeepsHealthy | internal/rootmulti/store.go:203-1162 | every single step keeps the invariant |
| MultiStoreRuns.WrittenOutcome | internal/rootmulti/store.go:310-342 | a write changes one entry and neither the kind of the store nor what it has saved |
| MultiStoreReplay.InterruptedCommitReplays | internal/rootmulti/store.go:1204-1217 | whichever substores had already committed, and whatever the replay wrote to those, the replay commits the others once, leaves those alone, and gives the same commit info, saved trees and versions on disk; the working trees too, but for those writes |
| MultiStoreCrash.CrashedCommitReloads | internal/rootmulti/store.go:193-299 | after a Commit on a store in lockstep that died at any point, opening the database loads the state before it |
| MultiStoreCrash.CrashedCommitReplays | internal/rootmulti/store.go:462-509 | a Commit on a store in lockstep that died at any point, then a reload and the same writes, then Commit: the commit info, saved and working trees and versions on disk of a Commit that did not die |
| MultiStoreCrash.CrashedRollbackLoadsIff | internal/rootmulti/store.go:1100-1114 | after a rollback that died the database loads exactly when the target is not behind the latest version or no IAVL store was cut back yet |
| MultiStoreCrash.DiedRollbackDoesNotLoad | internal/rootmulti/store.go:1100-1114 | an example: versions 1 and 2, a rollback to 1 that died before the metadata was written, and a database that does not load |
| MultiStoreUpgradeCrash.CrashedUpgradeReloads | internal/rootmulti/store.go:203-299 | a Commit that follows a load with upgrades, or is the first one, and died at any point: if its renames are safe the same load succeeds and finds each store as it was, at the new version as saved, or about to be dropped |
| MultiStoreUpgradeCrash.CrashedUpgradeReplays | internal/rootmulti/store.go:1198-1238 | then, whatever the replayed block writes to stores that already have the version, Commit succeeds with the commit info, stores, saved trees and versions on disk of a Commit that did not die |
| MultiStoreUpgradeCrash.ReplayedWritesStayIff | internal/rootmulti/store.go:1204-1217 | the working tree of a store is then that of a Commit that did not die exactly when the store did not have the version yet or the replay left its tree as it was |
| MultiStoreUpgradeCrash.RenameSurvivesIff | internal/rootmulti/store.go:266-287 | a rename survives every crash of its Commit exactly when the commit info lists the old store, or it has no entries, or its name comes later, or one of the two has the version already |
| MultiStoreUpgradeCrash.UnsafeRenameLosesData | internal/rootmulti/store.go:266-287 | otherwise there is a crash after which the same load finds both stores empty, though the first load had data |
| MultiStoreUpgradeCrash.WritesLeadThere | internal/rootmulti/store.go:203-299 | writes, and an initial version before the first commit, lead to the stores these theorems start from |
| MultiStoreReplay.WorkingHashPredictsCommit | internal/rootmulti/store.go:513-540 | the working hash equals the hash of the following Commit if no kept store is an adapter or already committed |
| MultiStores.NameOrderUnique | internal/rootmulti/store.go:42-53 | with different names there is only one order by name, so map order cannot show |
| MultiStoreReplay.RenameMovesData | internal/rootmulti/store.go:266-287 | after a rename and a Commit the new store, at the new version, has its own entries overridden by every entry of the old one, which is gone from stores, names and commit info |
| MultiStoreReplay.RenameSavesData | internal/rootmulti/store.go:266-287 | and the saved tree has the old store's entries, or, if the new name already had the version from an interrupted commit, is that version |
| MultiStoreReplay.UpgradeReloads | internal/rootmulti/store.go:193-299 | after an upgrade and a Commit, opening the database with the new mounts loads the same commit info and trees |
| MultiStoreReplay.RenameEmptiesOldName | internal/rootmulti/store.go:278-286 | and the old name's new version on disk is empty, also after an interrupted commit if hashes do not collide |
| MultiStoreReplay.MovedContents | internal/rootmulti/store.go:266-281 | in memory: own entries overridden by the old store's, the old store empty |
| MultiStoreReplay.DeleteLeavesNothing | internal/rootmulti/store.go:260-265 | after a deletion and a Commit no trace in memory or commit info, and the last saved version is empty |
| MultiStoreReplay.UpgradeLeavesOthersAlone | internal/rootmulti/store.go:232-299 | a store that no upgrade names has the same contents after the upgrade and the Commit |
| MultiStoreSnapshots.SnapshotRoundTrip | internal/rootmulti/store.go:834-1012 | restoring a snapshot into an empty store with the same mounts gives the same trees and hashes, whether its stream ends there or goes on with an extension item |
| MultiStoreSnapshots.SnapshotSucceedsIff | internal/rootmulti/store.go:834-875 | a snapshot is taken exactly at a height from 1 to the latest version that every IAVL store has, if no store is an adapter |
| MultiStoreSnapshots.NodeItemIff | internal/rootmulti/store.go:969-996 | a node is imported exactly when a store is open, the node is no higher than 127, and the importer accepts it |
| MultiStoreSnapshots.StoreItemIff | internal/rootmulti/store.go:949-967 | a store is opened exactly when the import before it ends well and the named IAVL store has saved and holds nothing |
| MultiStoreSnapshots.CommittedSnapshotRoundTrip | internal/rootmulti/snapshot_test.go:190-234 | a snapshot of what a Commit wrote, restored elsewhere, gives the very commit info of that Commit |
| MultiStoreSnapshots.RestoreEndsInLockstep | internal/rootmulti/store.go:930-1012 | whatever the stream, a successful restore ends in lockstep at its height |
| MultiStoreSnapshots.CommitWritesInfosAt | internal/rootmulti/store.go:462-509 | an ordinary Commit, upgrades included, writes the commit info that its histories determine |
| MultiStoreSound.RunsStaySound | internal/rootmulti/store.go:203-1162 | over every run all trees, on disk and in memory, stay sound if updates keep trees sound |
| MultiStoreSound.RunsCanBeSnapshot | internal/rootmulti/store.go:845-870 | so every height that each IAVL store of a run has can be snapshot, if no node is higher than 127 |
| RootStores.KeysFromStoreKeyMap | internal/rootmulti/store.go:42-53 | every key once, sorted by name, with one possible result whatever the map order |
| RootStores.RootStore.MountStoreWithDB | internal/rootmulti/store.go:141-153 | mounts a new key; panics without a change on a key or name already mounted |
| RootStores.RootStore.LoadVersion | internal/rootmulti/store.go:203-299 | the whole new state on success; on failure nothing changes but the removal map, which gained exactly what the stores before the first one that does not load drop |
| RootStores.RootStore.LoadLatestVersion | internal/rootmulti/store.go:193-196 | loads the version the metadata names, and on failure changes nothing |
| RootStores.RootStore.DeleteKVStore | internal/rootmulti/store.go:310-326 | collects the keys, then deletes each |
| RootStores.RootStore.MoveKVStoreData | internal/rootmulti/store.go:329-342 | copies every entry, then empties the source |
| RootStores.RootStore.FlushMetadata | internal/rootmulti/store.go:1143-1162 | commit info and latest version reach the disk in one batch |
| RootStores.RootStore.CommitStores | internal/rootmulti/store.go:1198-1238 | commits in name order and returns the entries of the kept persistent stores; a panic leaves exactly the stores before it committed, and the metadata alone |
| RootStores.RootStore.Commit | internal/rootmulti/store.go:462-509 | the whole new state, version and hash; a panic in a substore leaves the stores before it committed and the metadata, on disk and in memory, as it was |
| RootStores.RootStore.ForgetRemoved | internal/rootmulti/store.go:486-496 | removed stores leave stores, parameters and names, and the removal map is reset |
| RootStores.RootStore.WorkingHash | internal/rootmulti/store.go:513-540 | the root hash over the kept IAVL stores' working hashes, the same in whatever order the map is visited |
| RootStores.RootStore.GetAllVersions | internal/rootmulti/store.go:542-558 | the versions of some IAVL store in ascending order |
| RootStores.RootStore.PruneStores | internal/rootmulti/store.go:692-723 | every IAVL store is cut to the versions above the height, unless that would be all |
| RootStores.RootStore.SetInitialVersion | internal/rootmulti/store.go:793-808 | sets it on the root store and on every IAVL substore |
| RootStores.RootStore.Snapshot | internal/rootmulti/store.go:834-926 | the items written, or the error for height 0, a future height or a store that cannot be snapshot; an error leaves exactly the items of the stores before it written |
| RootStores.RootStore.Restore | internal/rootmulti/store.go:930-1012 | exactly when it succeeds, the whole new state, and the item that ended the stream; a failure leaves exactly the imports that had ended, or all of them under metadata that does not load |
| RootStores.RootStore.BuildCommitInfo | internal/rootmulti/store.go:1074-1092 | an entry for each persistent store in name order |
| RootStores.RootStore.RollbackToVersion | internal/rootmulti/store.go:1095-1115 | exactly when it succeeds and the whole new state; a failure leaves exactly the stores before it cut back, or all of them under metadata that does not load; targets that are not positive are refused without a change |
| PruneApps.LoadsIff | internal/rootmulti/store.go:193-299 | loading the latest version succeeds exactly when each store has that version on disk, and what it loads |
| PruneApps.MountedExactly | cmd/pruner.go:50-66 | mounted to be pruned are exactly the stores the latest commit info lists with a hash that is not empty |
| PruneApps.CommittedAreMounted | cmd/pruner.go:50-66 | after a Commit without empty hashes those are exactly the kept stores that are not in memory |
| PruneApps.PrefixFreeIff | cmd/pruner.go:69 | names in byte order collide exactly when a neighbour is a prefix of the next |
| PruneApps.KeepVersionsIsIgnored | cmd/pruner.go:86-90 | the index is in range exactly for a flag from 1 to 2^63 plus the number of versions, and is then that of the newest version |
| PruneApps.KeepVersionsPastTheEnd | cmd/pruner.go:86-90 | flags of 0 and 2^64-1 index past the end |
| PruneApps.KeepVersionsHonouredIff | cmd/pruner.go:86-93 | every store keeps the newest of its versions that were to be kept exactly when, in each, as many as promised are at least as new as the newest of the chosen store, or all are older |
| PruneApps.HonoursIfNothingAhead | cmd/pruner.go:86-93 | with no store ahead that is when no more than one is to be kept or the store has no more than one |
| PruneApps.PruneAppState | cmd/pruner.go:32-97 | exactly when it succeeds, fails or panics, and that it prunes to one below the newest version of the store it chose |
| PruneApps.PruneStoresKeepsStateIff | cmd/pruner.go:90-93 | the state the metadata names survives exactly when the target is below it, or a store has nothing newer than the target |
| PruneApps.ChosenStoreDecides | cmd/pruner.go:79-93 | it survives exactly when the store whose versions were looked up has nothing newer |
| PruneApps.EveryChoiceKeepsStateIff | cmd/pruner.go:79-93 | it survives whichever store that is exactly when no store is ahead of the metadata |
| PruneApps.InterruptedCommitLosesState | cmd/pruner.go:79-93 | a concrete database after an interrupted commit that loads, and no longer does once its store is pruned |
| PruneApps.PruneAppStoreKeepsState | cmd/generic_chain.go:105-112 | deleting commit infos below a height up to the latest leaves the latest commit info, the metadata and all trees intact |
| PruneApps.PruneApplication | cmd/root.go:59-71 | end to end from a loadable database: exactly when it succeeds, and exactly when the latest commit info and trees are the same afterwards; no older state is left, and how many versions were promised |
| PruneApps.CommittedIsPrunable | internal/rootmulti/store.go:462-509 | what an ordinary Commit leaves on disk is loadable, with no store ahead: the starting point of the end-to-end theorem |
| PruneApps.SameStateSameLoad | internal/rootmulti/store.go:193-299 | a node with any transient and memory stores beside the pruned ones loads from the pruned database exactly what it loaded before |
| CmtPruning.PruneHeightBelowTipIff | cmd/pruner.go:206 | the pruned height is at most the last height exactly when no more blocks are to be kept than there are |
| CmtPruning.PruneCmtData | cmd/pruner.go:180-221 | for Sei and other chains, the outcome on all three databases at the computed height |
| CmtPruning.PruneBlockAndStateStore | cmd/generic_chain.go:114-122 | the three databases as pruned each on its own |
| CmtPruning.CommitInfoLostIff | cmd/generic_chain.go:105-112 | some database loses the commit info of a version exactly when the version is from 1 to pruneHeight-1, is not the spared one, and that bound is no power of ten |
| CmtPruning.LastBlocksStay | cmd/pruner.go:206-213 | every entry of the last keepBlocks blocks, in all three databases, has its value after pruning |
| CmtPruning.LastSeiBlocksStay | cmd/pruner.go:206-213 | on a well-formed Sei database the heights from the pruned height on stay |

## Left out

- RootStores.RootStore.LoadVersion: mounts with a database of their own are not modelled; every substore lives under `s/k:<name>/` of the root database.
- RootStores.RootStore.Commit: the pruning manager is the default that prunes nothing, and the time of the commit header is not part of the commit info.
- RootStores.RootStore.PruneStores: deletions take effect at once, and every error of a substore is skipped; the early return for a history with a gap is not modelled.
- MultiStoreRuns.RunsStayInLockstep: loads, renames, prunings and initial versions in a run obey the conditions written in `Takes`; `LoadReadyIff` and `CommitLockstepIff` show what happens otherwise. A crash inside a rollback is admitted if it loses nothing, by `CrashedRollbackLoadsIff`.
- MultiStoreUpgradeCrash.CrashedUpgradeReplays: that the replayed block writes to a store found as when it was loaded what it wrote the first time is an assumption (`Replayed`), as is the same of all stores in `CrashedCommitReplays`.
- MultiStoreReplay.RenameMovesData: no mounted store, and no other rename, uses a name that is renamed away (`RenamesApart`).
- MultiStores.KeysApart: a substore is one record, so a name that contains a slash, whose keys could fall under the prefix of another store, is not seen.
- BlockStores.PruneAppStore: with a pruneHeight of 0 the bound 2^64-1 rounds to 2^64, and what the conversion back yields is left to the platform; nothing more is claimed of that case.
- CmtPruning.PruneBlockAndStateStore: one order of three goroutines that work on distinct databases.
- CmtPruning.PruneCmtData: the garbage collection that may follow is in `GarbageCollection`, not composed with it; the size threshold for the application database is not modelled.
- GarbageCollection.GcDB: copying is one batch of entries at a time as in the source, but closing and opening database engines and their files is not modelled.
- The database engines, their errors and iterator errors, logging, flags, format detection, ownership of files and the JSON report.
- The bytes of stored records: they are decoded values, and a root store record that does not decode is not modelled (the blockStore record is).
- The IAVL library itself: rebalancing and hashing are parameters, and loading, pruning, export and import follow its documented behaviour on saved versions.
- Listeners, tracing, the inter-block cache, cache multistores, queries and proofs.
- The contents of database adapters; they appear as the excluded case of the working hash and of snapshots.
- Substores are values in a map of the root store, so aliasing between a store and its users is not modelled.
- Non-minimal encodings in the ordered code, and the difference between nil and empty byte strings.
