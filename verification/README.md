# Verified model of the accounts database storage engine

The accounts database keeps three views of the same data: an index from keys to slots, a write cache
for recent slots, and one storage file per older slot.  Background work moves accounts between these
views while loads run.  This project models that engine in Dafny and proves what its operations
promise: over whole runs of writes, flushes, shrinks, cleans, snapshots and restarts no old balance comes
back and nothing that was flushed is lost, a load finds the newest version while data moves under it, a cleaning flush changes
no view, flushing and purging never touch a slot together, and the fast startup hash is the hash of the
accounts that are restored.  It also covers the account lock table and several self-contained algorithms
beside the engine.

Check everything with `dafny verify dfyconfig.toml`.

## What is modelled

- `Types`, `Rebuild`: slots, keys, accounts; what a restart reads back from a set of storages (the
  version in the highest slot counts, zero lamports means absent), also from a full snapshot combined
  with the storages of later slots.
- `DeleteDependencies`: the worklist over the bipartite graph of candidate keys and slots.  The
  reference definition is graph-theoretic: a store stays exactly when a walk leads from it to an
  obstacle.
- `CleanModel`, `CleanPhases`, `Clean`: a whole clean.  `Consistent` says that index entries resolve,
  that reference counts are the numbers of storages holding a key, that store counts are the numbers of
  alive accounts, and that the newest stored version of each key is alive.  The class `AccountsDb` has
  the source's fields and steps.
- `DbSteps`, `DbHistory`: cached writes, flushes, shrinks and startup on the same database, each keeping it
  consistent, and runs of all operations in any order with the write cache as part of the state: a write
  goes to the cache, a flush takes whole cached slots, a restart loses the cache.  They are compared with
  all accounts ever written to the slots that were flushed.
- `Startup`: index generation, the database it leaves behind, and the first clean on it.
- `LoadProtocol`, `LoadInvariant`, `LoadSafety`, `LoadProgress`: a transition system with twenty kinds of writer and
  background steps (store, flush, shrink, clean, purge, new root) and a lock-free load, interleaved in
  any order, and what it takes for background work to finish.
- `FlushCache`: the flush of rooted slots, highest first, with cleaning.
- `Contention`: the lock, set and condition variable that keep flushes and removals apart, as a
  transition system over threads, with spurious wakeups.
- `LtHash`, `Tally`, `IndexGeneration`: index generation on any number of threads and in any order, with
  the hash as 1024 words of 16 bits that wrap around.
- `AccountLocks`: the lock table, strict and batch locking, unlocking, validation.
- `StorageReader`: the archive reader that skips obsolete accounts.
- `StorageOrderer`: interleaving small and large storages, and concurrent consumption.
- `Sums`, `CacheAccounting`, `CacheCounters`: write-cache byte accounting, once with whole operations on a
  class and once with every atomic operation as a step of its own.
- `Dedup`, `LargestAccounts`, `CrateOrder`, `TokenAmount`: in-place keep-last deduplication, top-k with a
  bounded heap, layered crate ordering, fixed-point printing.

Code that changes things step by step is a class or a method with loops, proved against a relation
between the old and the new state.  Protocols are state machines whose steps are the atomic operations
of the source.  Choices that the source leaves open (hash map order, thread schedule, short file reads,
chunking) are nondeterministic, so the contracts hold for all of them.

Where comments and code disagree the model follows the code:

- The diagram in `retry_to_get_account_accessor` has the purger empty the maps before the index; the code
  of `purge_slots_from_cache_and_store` removes index entries first, which the safety proof needs.
- The comment of the incremental-snapshot filter says that candidates with an empty slot list are
  removed; the code keeps them.  `CleanOutdated` proves that no candidate has an empty slot list.
- The doc of `with_small_to_large_ratio` promises cycles of small storages and large ones; the code applies
  the selection to original indices instead of positions in the sorted order (see below).

Four promises hold only under a condition, which is proved to be exact or shown to be needed:

- `with_small_to_large_ratio` delivers the documented order for every list of `n` storages if and only if
  `n <= 2`, the second rate is zero, or `n` is at most one more than the first rate.  With the ratio 4 to 1
  of the archiver and capacities 60, 20, 30, 40, 50, 10 the storage of capacity 50 comes first.
- The length that the archive reader announces is the number of bytes it keeps if and only if the obsolete
  ranges share no byte of the file, and it delivers all of them if and only if no two ranges that start
  before a kept byte overlap.  A repeated offset breaks both.
- The counters of the write cache equal the sums over the maps whenever nothing is in flight, but two
  overlapping inserts of one key can take a counter below zero in between, where the 64-bit word wraps
  around.  In any reachable state some order of what is in flight takes a counter below zero if and only if
  the counter together with all pending adjustments that lower it is below zero.  If inserts of one key in
  one slot do not overlap, no counter ever is below zero.
- A removal of unrooted slots that names a slot twice waits for itself and never starts to purge, whatever
  the other threads do.  Distinct and disjoint lists are assumed of callers, as the source's comment does.

The clean is safe with the incremental-snapshot filter on as well as off: the surviving storages, combined
with any earlier full snapshot, restore the same accounts.

## Model

| member | source | states |
|---|---|---|
| `Types.MaxCleanRoot` | accounts-db/src/accounts_db.rs:1639-1651 | a slot is within the resulting bound exactly when the caller and every ongoing scan allow it |
| `Rebuild.PruneKeepsLive` | accounts-db/src/accounts_db.rs:6452-6849 | removing storages leaves a key's restored account unchanged if its newest version stays, or if that has zero lamports and every version goes |
| `Rebuild.LiveIff` | accounts-db/src/accounts_db.rs:6452-6849 | a restart reads an account back if and only if it has lamports and is its key's version in the highest slot |
| `Rebuild.PruneKeepsRestored` | accounts-db/src/accounts_db.rs:2531-2589 | the same for a restart from any full snapshot and the surviving storages after it, if a version that disappears lies in the snapshot's range |
| `DeleteDependencies.CalcDeleteDependencies` | accounts-db/src/accounts_db.rs:1497-1595 | exactly the stores whose connected component has no obstacle remain, with their counts, for every visiting order; the worklist terminates |
| `DeleteDependencies.SettleCandidate` | accounts-db/src/accounts_db.rs:1508-1592 | a candidate ends with all its slots given up or is deletable; only slots connected to an obstacle are given up |
| `DeleteDependencies.GiveUpStores` | accounts-db/src/accounts_db.rs:1549-1592 | the pending slots and everything connected to them are given up, and nothing outside the kept components |
| `DeleteDependencies.KeptSpreads` | accounts-db/src/accounts_db.rs:1571-1591 | being kept spreads from a slot to every slot that shares a key with it |
| `DeleteDependencies.UncountedIsNotKept` | accounts-db/src/accounts_db.rs:1497-1595 | once all candidates are settled, no walk leads from a remaining store to an obstacle |
| `Clean.AccountsDb.ConstructCandidateCleanKeys` | accounts-db/src/accounts_db.rs:1759-1880 | for every slot and key, written out with the bound or, without one, the maximum root: the candidates are exactly the keys of dirty and uncleaned slots up to it and of the recorded pairs that it and the latest full snapshot have both reached; a pair stays recorded exactly when one of the two has not reached it, and a pair that leaves is scanned; dirty and uncleaned slots above it stay as they were |
| `Clean.AccountsDb.ScanCandidate` | accounts-db/src/accounts_db.rs:2049-2150 | outdated rooted versions of the key leave the index, and the key is remembered when its newest rooted version has zero lamports |
| `CleanPhases.ScanIsReclaimable` | accounts-db/src/accounts_db.rs:1432-1467 | removing outdated versions leaves the newest stored version of every key alive |
| `Clean.AccountsDb.RemoveDeadAccounts` | accounts-db/src/accounts_db.rs:5482-5605 | each store's count drops by its reclaimed accounts without underflow, the dead slots are exactly those that reach zero, and exactly these become dirty, with all their keys |
| `Clean.AccountsDb.UnrefAccounts` | accounts-db/src/accounts_db.rs:5664-5681 | reference counts drop by the number of places of the key, without underflow |
| `Clean.AccountsDb.HandleReclaims` | accounts-db/src/accounts_db.rs:2472-2506 | dead slots lose storage, root and references and become dirty with all their keys, and no other dirty slot changes; reference counts are the numbers of remaining storages |
| `CleanModel.ReclaimKeepsConsistent` | accounts-db/src/accounts_db.rs:2472-2506 | reclaiming restores the whole consistency invariant |
| `CleanModel.ReclaimKeepsNewest` | accounts-db/src/accounts_db.rs:5482-5605 | a key with an alive version no older than its newest stored one keeps that storage; used for both halves of clean |
| `Clean.AccountsDb.CollectStoreCounts` | accounts-db/src/accounts_db.rs:2172-2236 | each candidate's store appears with the number of alive accounts left if all candidates go, and with exactly its candidates |
| `Clean.AccountsDb.CleanOutdated` | accounts-db/src/accounts_db.rs:2037-2170 | exactly the outdated versions of the candidate keys leave, with the storages that die; every key keeps its newest version and at most one rooted entry up to the bound, and the zero-lamport candidates are exactly the keys whose remaining rooted entry has zero lamports |
| `Clean.CandidatesAreExact` | accounts-db/src/accounts_db.rs:2049-2150 | after outdated versions are gone, a key is a zero-lamport candidate exactly when it was scanned and its rooted entry up to the bound has zero lamports |
| `Clean.AccountsDb.FilterZeroLamportClean` | accounts-db/src/accounts_db.rs:2531-2589 | a candidate that passes the store-count test is purged, or recorded with its newest slot when the latest full snapshot does not cover it; nothing recorded is lost |
| `CleanPhases.FilterIsPurgeSafe` | accounts-db/src/accounts_db.rs:2172-2256 | what passes the worklist and the filter is stored nowhere else, and its stores hold no other alive account |
| `CleanPhases.PurgedIffErasable` | accounts-db/src/accounts_db.rs:2172-2256 | the keys purged are exactly those whose store holds only candidates stored nowhere else, in a slot that the latest full snapshot, if there is one, has reached |
| `Clean.RecordedIffBlocked` | accounts-db/src/accounts_db.rs:2531-2589 | a pair is recorded exactly when the key could be erased if the latest full snapshot had reached its slot |
| `CleanPhases.PurgedStoreDies` | accounts-db/src/accounts_db.rs:2258-2293 | every store that holds a purged key ends with no alive account and is removed |
| `Clean.AccountsDb.PurgeKeysExact` | accounts-db/src/accounts_db.rs:1598-1636 | exactly the given entries leave the index and are returned |
| `Clean.AccountsDb.PurgeZeroLamport` | accounts-db/src/accounts_db.rs:2172-2293 | exactly the erasable candidates go, with every stored copy, and exactly those blocked by the filter alone are recorded; each other key has its newest version left |
| `Clean.AccountsDb.CleanAccounts` | accounts-db/src/accounts_db.rs:1986-2293 | clean keeps the invariant, removes only whole storages and entries of storages, and never changes a restored account, also from any full snapshot plus later storages; the keys scanned are exactly those of dirty and uncleaned slots up to the bound and of recorded pairs that bound and full snapshot have reached; of these keys exactly the stored versions with a newer rooted one within the bound leave, and of their zero-lamport entries exactly the erasable ones leave index and storages; a pair is recorded afterwards exactly when it was and is not reached, or only the full snapshot blocks it; the dirty slots afterwards are those above the bound and those whose storage was removed, with its keys |
| `CleanPhases.OutdatedIff` | accounts-db/src/accounts_index.rs:1490-1525 | a stored version is removed as outdated if and only if the index has a newer rooted version within the bound |
| `Clean.RecordedUntilReached` | accounts-db/src/accounts_db.rs:1867-1877 | over any series of cleans a recorded zero-lamport account stays recorded until the first clean whose bound and full snapshot have both reached its slot, and that clean scans its key |
| `Clean.CleanRounds` | accounts-db/src/accounts_db.rs:1867-1877 | any number of rounds of full snapshot and clean makes up such a series, from what was recorded before to what is recorded after |
| `Clean.CleanTwice` | accounts-db/src/accounts_db.rs:1867-1877 | what a first clean records, or leaves recorded, is scanned by a second one if its bound and the full snapshot between them have reached it, and stays recorded otherwise |
| `DbSteps.CacheWriteKeepsConsistent` | accounts-db/src/accounts_db.rs:5791-5839 | a write to the cache keeps the database consistent |
| `DbSteps.AddedIsConsistent` | accounts-db/src/accounts_db.rs:5001-5106 | adding storages for any slots, with their cached entries replaced or dropped, keeps the database consistent: flushing a batch of roots and starting up |
| `DbSteps.ShrunkIsConsistent` | accounts-db/src/accounts_db.rs:3120-3222 | rewriting a storage with its alive accounts, dropping references of the dead ones and erasing zero-lamport ones stored nowhere else, keeps the database consistent |
| `DbSteps.ErasesIff` | accounts-db/src/accounts_db.rs:2674-2682 | a shrink erases a key if and only if its alive account has zero lamports, no other storage holds the key, and there is no full snapshot or it has reached the slot |
| `DbSteps.ShrinkKeepsExactly` | accounts-db/src/accounts_db.rs:2673-2692 | if some alive account is not such a one the new storage holds exactly those, unchanged, exactly the erased ones lose their entry, and other storages and entries stay; otherwise nothing changes |
| `DbHistory.LeavesForGood` | accounts-db/src/accounts_db.rs:2651-2745 | what a shrink leaves out has a newer stored version, or is the only version and has zero lamports |
| `DbHistory.ShrinkKeepsRestored` | accounts-db/src/accounts_db.rs:2674-2692 | a shrink changes no account that a restart from any full snapshot and the later storages reads |
| `DbHistory.FlushKeeps` | accounts-db/src/accounts_db.rs:4944-4999 | flushing cached slots above all flushed ones, without superseded accounts, keeps restarts true to all accounts written to the flushed slots |
| `DbHistory.FlushStoresExactly` | accounts-db/src/accounts_db.rs:5001-5106 | a flush stores exactly the accounts of its cached slots that are not dropped, removes these slots from the cache, and leaves other storages alone; a slot with nothing kept gets no storage |
| `DbHistory.StartupIsGenerated` | accounts-db/src/accounts_db.rs:6452-6849 | the database after startup has the slots, reference counts and store counts that index generation finds |
| `DbHistory.NothingResurrects` | accounts-db/src/accounts_db.rs:2513-2526 | after any run of writes, flushes, purged forks, shrinks, cleans, full snapshots and restarts the database is consistent, and a restart from the storages, or from the latest full snapshot and the later storages, reads every account as it was last written to a flushed slot |
| `DbHistory.LastWriteStays` | accounts-db/src/accounts_db.rs:5791-5839 | after any run what was written is still there, in the cache or in the history of its slot, unless it was overwritten in that slot or the slot was given up before it was flushed |
| `DbHistory.RestartReadsLastWrite` | accounts-db/src/accounts_db.rs:2513-2526 | after any run, if the slot of such a write has been flushed and no later flushed slot holds the key, a restart from the storages, or from the latest full snapshot and the later storages, reads the account as written, or nothing if that had no lamports |
| `DbHistory.ForksSeeWrites` | accounts-db/src/accounts_db.rs:5791-5839 | on any fork of cached slots above the flushed ones, cache and storages together hold what was last written, and the cached entries of the index are exactly the cached accounts |
| `DbHistory.CleanMayRun` | accounts-db/src/accounts_db.rs:2205-2220 | in every reachable state no rooted entry is cached, which clean needs |
| `DbHistory.RunClean` | accounts-db/src/accounts_db.rs:1986-2293 | a clean of the database of a reachable state is a step of the run and keeps its invariant |
| `LoadInvariant.StepKeeps` | accounts-db/src/accounts_db.rs:3885-4000 | every store, flush, shrink, clean (of outdated, unrooted and zero-lamport entries), purge and root step keeps the shared invariant |
| `LoadInvariant.RemoveEntryKeeps` | accounts-db/src/accounts_index.rs:1489-1525 | removing an outdated entry, or a stored one of a slot that was passed over by the roots, keeps every entry resolvable |
| `LoadSafety.StepMild` | accounts-db/src/accounts_db.rs:4012-4070 | a step can move the version a load looks for only to a place it was about to move to, and can remove it only for a newer one or as the oldest, zero-lamport version |
| `LoadSafety.EveryEntryResolves` | accounts-db/src/accounts_db.rs:5001-5106 | in every reachable state each index entry points to a present cache entry or storage with the account last stored |
| `LoadSafety.AtMostOneMiss` | accounts-db/src/accounts_db.rs:4012-4036 | a fixed-root load misses the cache at most once in every interleaving |
| `LoadSafety.OneMissHappens` | accounts-db/src/accounts_db.rs:4012-4036 | the bound is attained: a flush between the load's two reads causes one miss |
| `LoadSafety.NeverSentBack` | accounts-db/src/accounts_db.rs:4102-4148 | the index never sends a load back to the place it just found empty, so the bad-index-entry panic is unreachable |
| `LoadSafety.RestartIsNew` | accounts-db/src/accounts_db.rs:4036-4062 | a restart because a storage is gone is for a storage the load had not tried before |
| `LoadSafety.RestartsAreBounded` | accounts-db/src/accounts_db.rs:4043-4056 | every storage found gone has left both maps by a finished shrink or a removal, so restarts are at most the storages retired, and the load takes four steps for each and at most eight besides |
| `LoadSafety.LoadReturnsLatest` | accounts-db/src/accounts_db.rs:3885-4161 | a load returns the latest version visible when it began, or nothing where that is absent or has zero lamports |
| `LoadSafety.PinnedLookupFinds` | accounts-db/src/account_storage.rs:52-72 | while the index points to a storage, the map, shrink map, map lookup finds it at every point of a shrink's two-step end |
| `LoadSafety.LastLookFindsIff` | accounts-db/src/account_storage.rs:52-72 | the last look finds the account if and only if the map still has the storage that the index named; otherwise the load starts over and remembers that the storage is gone |
| `LoadInvariant.ShrinkStartKeeps` | accounts-db/src/account_storage.rs:170-198 | beginning a shrink keeps every entry resolvable |
| `LoadInvariant.ShrinkSwapKeeps` | accounts-db/src/account_storage.rs:268-287 | replacing the old storage in the map keeps every entry resolvable |
| `LoadInvariant.ShrinkEraseKeeps` | accounts-db/src/accounts_db.rs:2940-2969 | erasing zero-lamport single-reference keys keeps every entry resolvable |
| `LoadInvariant.FlushWriteKeeps` | accounts-db/src/accounts_db.rs:5053-5082 | writing the storage before the index is updated keeps every entry resolvable |
| `LoadInvariant.FlushEndKeeps` | accounts-db/src/accounts_db.rs:5092-5096 | removing the slot from the cache after the index is updated keeps every entry resolvable |
| `LoadInvariant.WriteIndexKeeps` | accounts-db/src/accounts_db.rs:5791-5839 | storing to the cache before the index keeps every entry resolvable |
| `LoadInvariant.PurgeEndKeeps` | accounts-db/src/accounts_db.rs:4445-4477 | dropping a purged slot after its index entries keeps every entry resolvable |
| `LoadProgress.WorkCanFinish` | accounts-db/src/accounts_db.rs:5001-5106 | a flush, shrink or purge that has begun can be finished by its own steps wherever a load stands, if what a flush drops has a newer version in a later root |
| `LoadProgress.StuckNeverFinishes` | accounts-db/src/accounts_db.rs:5048-5051 | the condition is exact: its own steps never finish a flush that would drop a key without such a version |
| `LoadProgress.CleanZeroTakes` | accounts-db/src/accounts_db.rs:1598-1636 | purging a zero-lamport key takes exactly its rooted entries up to the bound out of the index |
| `FlushCache.AccountsDb.ClearRoots` | accounts-db/src/accounts_cache.rs:233-246 | the unflushed roots are split at the requested root |
| `FlushCache.AccountsDb.SetMaxFlushRoot` | accounts-db/src/accounts_cache.rs:270-272 | the maximum flushed root becomes the highest of the flushed roots and never drops |
| `FlushCache.AccountsDb.SelectFlushed` | accounts-db/src/accounts_db.rs:5009-5046 | with cleaning exactly the keys already written are dropped, and all keys of the slot count as written afterwards |
| `FlushCache.AccountsDb.DoFlushSlotCache` | accounts-db/src/accounts_db.rs:5001-5106 | the slot's kept accounts move to a storage, dropped ones leave the index, a slot with nothing kept loses its root; the assertions about storage and index hold |
| `FlushCache.AccountsDb.FlushSlotCacheWithClean` | accounts-db/src/accounts_db.rs:5116-5162 | the slot is flushed exactly when it is cached and nobody else works on it; it is reserved for the flush and given back, where the assertion holds, and waiting threads are woken |
| `FlushCache.AccountsDb.FlushRootedAccountsCache` | accounts-db/src/accounts_db.rs:4944-4999 | exactly the cached, uncontended roots up to the request are flushed; exactly the accounts superseded by a later flushed root within the clean bound are dropped; every view at or above the cleaned roots is unchanged; the maximum flushed root is right |
| `FlushCache.ViewKeptIffNotDropped` | accounts-db/src/accounts_db.rs:5048-5051 | a reader's newest rooted version is unchanged if and only if it is not among the dropped ones |
| `FlushCache.FlushKeepsViews` | accounts-db/src/accounts_db.rs:4944-4999 | a cleaning flush keeps the view of every reader at or above the roots it cleans, a plain flush every view |
| `FlushCache.FlushKeepsConsistent` | accounts-db/src/accounts_db.rs:5001-5106 | a flush keeps every index entry resolvable and cache and storages apart |
| `FlushCache.ViewIff` | accounts-db/src/accounts_index.rs:1163-1176 | a reader sees the version in the highest root, up to its own, that the index has for the key |
| `Contention.ReserveDistinct` | accounts-db/src/accounts_db.rs:4677-4700 | reserving a list without repetition leaves exactly the slots that others hold |
| `Contention.ReservedAtOnceIff` | accounts-db/src/accounts_db.rs:4684-4700 | nothing remains to wait for if and only if the slots are distinct and free |
| `Contention.ReserveCounts` | accounts-db/src/accounts_db.rs:4717-4722 | each try leaves a contended slot in the list as often as before and a free one once less |
| `Contention.StepKeeps` | accounts-db/src/accounts_db.rs:4663-4747 | every flush, removal, notification and wakeup step keeps the ownership invariant |
| `Contention.ContendedIsOwned` | accounts-db/src/accounts_db.rs:5116-5162 | the contended set is the disjoint union of the slots held by flushers and removers |
| `Contention.NeverFlushedAndPurged` | accounts-db/src/accounts_db.rs:5122-5150 | no slot is flushed and purged, or flushed twice, at the same time |
| `Contention.RemovalsSucceed` | accounts-db/src/accounts_db.rs:4743-4746 | the assertions guarding both removals from the set always hold |
| `Contention.WaitingIsJustified` | accounts-db/src/accounts_db.rs:4702-4723 | a waiting remover lacks a slot, and a notification is still to come or every lacking slot is being flushed |
| `Contention.FinishingDescends` | accounts-db/src/accounts_db.rs:4702-4747 | steps that finish work under way cannot go on forever |
| `Contention.NoDeadlock` | accounts-db/src/accounts_db.rs:4702-4723 | while any thread is left some finishing step is possible, and without threads no slot is contended |
| `Contention.RepeatedWaitsForItself` | accounts-db/src/accounts_db.rs:4684-4700 | a removal started in any reachable state with a slot named twice ends up waiting for itself |
| `Contention.RepeatedNeverPurges` | accounts-db/src/accounts_db.rs:4702-4723 | such a removal never starts to purge, in every continuation |
| `LtHash.MixIn` | lattice-hash/src/lt_hash.rs:37-41 | in-place mixing adds word by word modulo 65536 |
| `LtHash.MixOut` | lattice-hash/src/lt_hash.rs:46-50 | in-place mixing out subtracts word by word modulo 65536 |
| `LtHash.MixOutUndoes` | lattice-hash/src/lt_hash.rs:34-50 | mixing in and mixing out undo each other |
| `LtHash.MixAssociates` | lattice-hash/src/lt_hash.rs:34-41 | mixing is associative |
| `Tally.SumSplits` | accounts-db/src/accounts_db.rs:6376-6377 | a tally over a set of stored accounts does not depend on the order of summation |
| `Tally.SumUnion` | accounts-db/src/accounts_db.rs:6501-6514 | the tally of disjoint sets is the sum of their tallies |
| `Tally.Accumulate` | accounts-db/src/accounts_db.rs:6501-6514 | accumulating mixes the hashes in and adds the lengths |
| `IndexGeneration.Generator.GenerateIndexForSlot` | accounts-db/src/accounts_db.rs:6290-6450 | a storage's tally is the sum over its accounts; its keys enter the index, its stored bytes and number of accounts and its zero-lamport keys are recorded exactly, and an empty storage records nothing |
| `IndexGeneration.Generator.ScanStorages` | accounts-db/src/accounts_db.rs:6517-6606 | for every schedule over any number of threads the joined total is the sum over all stored accounts, and index, duplicates, sizes, counts, zero-lamport keys and the all-zero slots are exactly those of the storages |
| `IndexGeneration.DuplicatesAdd` | accounts-db/src/accounts_index.rs:1355-1388 | noting both places at a key's second entry and one at each later entry leaves exactly the places of the keys in several slots |
| `IndexGeneration.Generator.NoteDuplicates` | accounts-db/src/accounts_db.rs:6686-6707 | clean is handed, for every slot, exactly its zero-lamport keys and its keys that are in several slots; the keys returned are exactly the latter |
| `IndexGeneration.Generator.VisitKey` | accounts-db/src/accounts_db.rs:7012-7043 | the older versions of a key, and only those, are tallied and counted |
| `IndexGeneration.Generator.VisitChunks` | accounts-db/src/accounts_db.rs:6748-6783 | for every chunking and order the duplicates' tally is the sum over all older versions |
| `IndexGeneration.Generator.GenerateIndex` | accounts-db/src/accounts_db.rs:6452-6849 | hash and data length are those of the accounts that a restart reads back, the subtraction never underflows, index, sizes and counts are exact, and the uncleaned keys are the zero-lamport keys and the keys in several slots |
| `IndexGeneration.NewestWeighsLive` | accounts-db/src/accounts_db.rs:4749-4758 | a newest version contributes what the restored account is: nothing when it is absent or has zero lamports |
| `IndexGeneration.NewestIsLive` | accounts-db/src/accounts_db.rs:6788-6789 | the newest versions of the keys weigh exactly what the restored accounts weigh |
| `IndexGeneration.Generator.CalculateFromIndex` | accounts-db/src/accounts_db.rs:5202-5259 | the slow computation from the index gives the hash of the restored accounts, for every order of keys |
| `IndexGeneration.GenerateAndVerify` | accounts-db/src/accounts_db.rs:5202-5259 | fast and slow computation agree |
| `Startup.StartedIsAdded` | accounts-db/src/accounts_db.rs:6801-6806 | index and counts from index generation make up the database that adding all storages gives, and it is consistent |
| `Startup.Start` | accounts-db/src/accounts_db.rs:6452-6849 | startup leaves that database; clean has to look at exactly the zero-lamport keys and the keys in several slots, and the dirty storages are exactly those that are not empty and hold only accounts without lamports, each with the keys of its file |
| `Startup.StartAndClean` | accounts-db/src/accounts_db.rs:7017-7018 | the first clean with a bound that covers all storages leaves at most the newest version of every key in the index, keeps an entry for every restored account and changes none of them |
| `AccountLocks.HasDuplicates` | accounts-db/src/account_locks.rs:178-199 | both ways of searching report a duplicate exactly when there is one |
| `AccountLocks.ValidateAccountLocks` | accounts-db/src/account_locks.rs:160-171 | too many keys are reported before duplicate keys |
| `AccountLocks.CanLockIffNoConflict` | accounts-db/src/account_locks.rs:73-88 | the counters allow a transaction exactly when it conflicts with no holder |
| `AccountLocks.TableIsDetermined` | accounts-db/src/account_locks.rs:12-16 | the tables are a function of who holds what |
| `AccountLocks.Accounts.TryLockAccounts` | accounts-db/src/account_locks.rs:24-32 | a transaction is locked as a whole or not at all |
| `AccountLocks.Accounts.TryLockTransactionBatch` | accounts-db/src/account_locks.rs:39-57 | exactly the valid transactions without conflict with earlier holders are locked; conflicts inside the batch do not matter |
| `AccountLocks.Accounts.LockStrict` | accounts-db/src/accounts.rs:518-525 | a transaction is refused exactly when it conflicts with an earlier holder or one admitted before it in the call |
| `AccountLocks.Accounts.LockAccounts` | accounts-db/src/accounts.rs:495-526 | as many results as the shorter of the two lists; an earlier error is kept, then too many locks, then repeated keys are errors, and otherwise the transaction is in use exactly when it shares a key, which one of the two writes, with one held before the call or, without relaxed locks, with one admitted earlier in the call; exactly the admitted ones become holders, with their own locks, and lock counts stay the numbers of holders, without zero entries |
| `AccountLocks.Accounts.UnlockAccounts` | accounts-db/src/accounts.rs:529-545 | exactly the given transactions stop being holders, and counts follow |
| `AccountLocks.HoldersDoNotConflict` | accounts-db/src/account_locks.rs:24-57 | after any run of lock and unlock calls, holders from different calls never conflict, and in strict mode no two holders do |
| `AccountLocks.LockCallExcludes` | accounts-db/src/accounts.rs:495-526 | the results of a lock call alone imply that exclusion is kept |
| `AccountLocks.LockAndUnlock` | accounts-db/src/accounts.rs:495-545 | unlocking a batch with its own results restores both tables exactly |
| `StorageReader.StoredSize` | accounts-db/src/append_vec.rs:68-70 | the stored size is the least multiple of eight that holds data and metadata |
| `StorageReader.AliveBytesIff` | accounts-db/src/accounts_db.rs:927-938 | file length minus clipped obsolete sizes is the number of bytes kept if and only if the ranges share no byte of the file |
| `StorageReader.OneRangeEach` | accounts-db/src/account_storage_reader.rs:33-50 | each account that was marked obsolete at the snapshot slot or earlier gives exactly one range, of its offset and stored size, in order |
| `StorageReader.CutIff` | accounts-db/src/obsolete_accounts.rs:39-47 | a byte is cut out if and only if it lies in the stored size of an account that was marked obsolete at the snapshot slot or earlier, or of any without a snapshot slot |
| `StorageReader.Reader.constructor` | accounts-db/src/account_storage_reader.rs:28-68 | the bytes cut out are exactly those of the accounts obsolete at the snapshot slot; the length is the number of the other bytes if and only if no two such accounts share a byte, and the reader delivers all of them if and only if no two that start before such a byte overlap |
| `StorageReader.Reader.Read` | accounts-db/src/account_storage_reader.rs:79-131 | the buffer gets the next kept bytes and is filled unless everything has been read, for any short file reads |
| `StorageReader.ReadSeries` | accounts-db/src/account_storage_reader.rs:79-131 | for any buffer sizes the outputs concatenate to the kept bytes in order |
| `StorageReader.ReadToEnd` | accounts-db/src/account_storage_reader.rs:28-131 | reading to the end delivers, in order and from the position given for each, bytes that no account obsolete at the snapshot slot holds, and skips none before the last one delivered; all are delivered if and only if, before each of them, no two such accounts overlap, and their number is announced if and only if none overlap |
| `StorageReader.DeliversAllIff` | accounts-db/src/account_storage_reader.rs:79-131 | everything is delivered if and only if, for every kept byte, the ranges that start before it share no byte |
| `StorageReader.DisjointDeliversAll` | accounts-db/src/account_storage_reader.rs:79-131 | ranges that share no byte never stop the delivery |
| `StorageReader.RepeatedOffsetStops` | accounts-db/src/account_storage_reader.rs:84-91 | an offset listed twice stops the delivery behind it and makes the length too small |
| `StorageOrderer.SelectInRange` | accounts-db/src/account_storage.rs:432-449 | selected values lie in the range |
| `StorageOrderer.SelectIsInjective` | accounts-db/src/account_storage.rs:432-449 | different positions select different values, for any rates with positive sum |
| `StorageOrderer.SelectIsOnto` | accounts-db/src/account_storage.rs:432-449 | every value of the range is selected |
| `StorageOrderer.SelectTakesTurns` | accounts-db/src/account_storage.rs:432-449 | each round takes the next values from the start, going up, as many as the start rate says, and then the next from the end, going down, as many as the end rate says |
| `StorageOrderer.WithSmallToLargeRatio` | accounts-db/src/account_storage.rs:313-327 | the result is the selection of the sorted order of original indices: always a permutation, and the documented order whenever nothing is taken out of turn |
| `StorageOrderer.DocumentedIff` | accounts-db/src/account_storage.rs:309-327 | every list of `n` storages gets the documented interleaving if and only if `n <= 2`, the end rate is zero or `n` is at most the start rate plus one |
| `StorageOrderer.ArchiveRatioFails` | snapshots/src/archive.rs:17-20 | with the archiver's ratio six storages exist whose first one is not the smallest |
| `StorageOrderer.ConcurrentConsumer.Next` | accounts-db/src/account_storage.rs:398-412 | each call takes the next position and returns its item until the end |
| `StorageOrderer.EachExactlyOnce` | accounts-db/src/account_storage.rs:398-412 | no storage is handed out twice, and all are once the consumer is exhausted |
| `StorageOrderer.ConsumeAll` | accounts-db/src/accounts_db.rs:6529-6570 | in any interleaving of threads that drain the consumer each storage goes to exactly one of them, once |
| `Dedup.SortIsStable` | accounts-db/src/accounts_db.rs:2792-2793 | the sort orders by key and does not change which account is the last of its key |
| `Dedup.RemoveDups` | accounts-db/src/accounts_db.rs:2795-2806 | the two cursors leave the last account of each run |
| `Dedup.SortAndRemoveDups` | accounts-db/src/accounts_db.rs:2791-2809 | the result is strictly sorted and holds exactly the accounts after which no other has the same key, and the number dropped is returned |
| `Dedup.DeduplicatedIsUnique` | accounts-db/src/accounts_db.rs:2786-2789 | these requirements determine the result |
| `LargestAccounts.OfferIsTakeOfInsert` | accounts-db/src/accounts.rs:286-295 | the bounded heap holds the top of what a full sort would hold |
| `LargestAccounts.LoadLargestAccounts` | accounts-db/src/accounts.rs:252-305 | the accounts returned are in order of falling lamports and, among equals, of falling keys; they have lamports, pass the filter and were met in the scan as often; an account that passes and is left out is not larger than any returned one, and none is left out while there is room; zero and a failed scan are handled as in the source |
| `LargestAccounts.ScanOrderDoesNotMatter` | accounts-db/src/accounts.rs:264-268 | the result does not depend on the scan order |
| `CacheAccounting.AccountsCache.Recount` | accounts-db/src/accounts_cache.rs:72-104 | a whole insert changes a slot's size and count and the shared totals by the same, exact amount |
| `CacheAccounting.AccountsCache.Insert` | accounts-db/src/accounts_cache.rs:72-104 | after whole operations sizes and counts match the maps and the totals the sums, also for slot caches already removed |
| `CacheAccounting.AccountsCache.Store` | accounts-db/src/accounts_cache.rs:196-214 | the account is stored in the slot's cache, made when missing, and all counts stay exact |
| `CacheAccounting.AccountsCache.RemoveSlot` | accounts-db/src/accounts_cache.rs:221-223 | a removed slot cache still counts while it is referenced |
| `CacheAccounting.AccountsCache.Drop` | accounts-db/src/accounts_cache.rs:34-42 | the final drop takes exactly the slot cache's contribution from the totals |
| `CacheCounters.StepKeeps` | accounts-db/src/accounts_cache.rs:72-104 | every atomic operation of an insert or a drop keeps counters plus what is still due equal to the sums |
| `CacheCounters.CountersPlusPending` | accounts-db/src/accounts_cache.rs:72-104 | in every reachable state of any number of threads the counters plus what inserts and drops in flight still owe equal the sums over the maps |
| `CacheCounters.QuietIsExact` | accounts-db/src/accounts_cache.rs:23-32 | with nothing in flight all four kinds of counter are exact |
| `CacheCounters.OverlapWraps` | accounts-db/src/accounts_cache.rs:78-99 | two overlapping inserts of one key take the slot's size below zero, so the word wraps around |
| `CacheCounters.UnderflowsIff` | accounts-db/src/accounts_cache.rs:34-104 | from any reachable state, some order of the inserts and drops in flight takes one of the four kinds of counter below zero if and only if the counter with all pending adjustments that lower it is below zero |
| `CacheCounters.NoUnderflowInTurn` | accounts-db/src/accounts_cache.rs:34-104 | when inserts of one key in one slot do not overlap, no counter is below zero in any reachable state |
| `CrateOrder.DirectCycles` | ci/order-crates-for-publishing.py:110-115 | exactly the pairs that depend on each other are reported |
| `CrateOrder.StuckIsCyclic` | ci/order-crates-for-publishing.py:131-149 | crates that each depend on one of them contain a cycle |
| `CrateOrder.OrderLayers` | ci/order-crates-for-publishing.py:128-152 | the loop succeeds exactly when there is no cycle, within as many rounds as there are crates |
| `CrateOrder.OrderPackages` | ci/order-crates-for-publishing.py:110-152 | the script outputs every crate once after its dependencies exactly when nothing is wrong; direct cycles are rejected first |
| `TokenAmount.PrintedIsExact` | account-decoder-client-types/src/token.rs:36-47 | the printed number has `decimals` fractional digits and denotes exactly `amount / 10^decimals` |
| `TokenAmount.TrimmedIsExact` | account-decoder-client-types/src/token.rs:49-56 | trimming keeps the value and leaves no trailing fractional zero or point |
| `TokenAmount.PrintingIsInjective` | account-decoder-client-types/src/token.rs:36-47 | equal strings mean equal amounts |
| `TokenAmount.TrimmedIsInjective` | account-decoder-client-types/src/token.rs:49-56 | the same for trimmed strings |

## Left out

- `MarkObsoleteAccounts::Enabled`: the index's reclaiming of old slots is not part of this model; an account is obsolete only for `StorageReader`.
- Loads with `LoadHint::Unspecified` and the fallback that reads under the index lock: the root may move during such loads, and no bound on misses is promised.
- Aggressive flushing of unrooted slots: `Clean` and `DbHistory` assume that every storage belongs to a rooted slot; `LoadProtocol` does not.
- Alive bytes, shrink candidates and the choice of what to shrink: floating-point heuristics.
- What a shrink leaves to clean: the keys it erases and the slots it makes all-zero are not added to clean's lists.
- Index bins and disk buckets: one map stands for the index.
- Scan filters: every scan is `ScanFilter::All`.  With another `scan_filter_for_shrinking` clean skips keys that are only on disk and not marked as possibly zero-lamport, and shrink takes them for alive, so "exactly" in the rows of clean and shrink is for the unfiltered scan.
- Offsets in storage files: a storage holds at most one account per key, so a key and a storage identify the account.
- Writing a storage in several passes: every store fits in one pass.
- `account-decoder`, RPC, benchmarks, metrics, geyser notifications, secondary indexes: conversions, I/O and measurement.
- 64-bit overflow of sums: slots, lamports, sizes and counts are unbounded; only the words of the hash wrap around, and below zero the counters of `CacheCounters`.
- I/O errors: a failed file read in the archive reader is not modelled, a failed scan in `LoadLargestAccounts` is.
- The limit on the number of storages at startup: all storages are loaded.
- Blake3: the hash of a non-zero account is an arbitrary function of key and account.
- Clean.AccountsDb.CleanAccounts: runs as one sequential operation; its interleaving with loads is covered by the step system of `LoadProtocol`, where it does not overlap other background work on the same slot.
- CacheAccounting.AccountsCache.Insert: one step; the states between its atomic operations are those of `CacheCounters`.
- CacheAccounting.AccountsCache.Recount: one step, like `Insert`.
- StorageReader.Reader.constructor: requires obsolete ranges that start in the file, as an offset behind its end underflows in the source; the announced length is an integer, which the source would wrap if overlapping ranges made it negative.
- DbHistory.NothingResurrects: operations are whole steps, one after the other, as the background thread runs them; their interleaving with loads is the subject of `LoadProtocol`.
- LargestAccounts.LoadLargestAccounts: the heap is kept as a descending list; its layout is not modelled.
- Dedup.SortAndRemoveDups: the library sort is specified by a stable insertion sort, and truncation of the vector by the returned length.
