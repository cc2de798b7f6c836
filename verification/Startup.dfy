/** Startup and the first clean after it: index generation hands clean what it needs, so that one clean
    leaves at most the newest version of every key in the index. */
module Startup {
  import opened Types
  import opened Rebuild
  import opened DeleteDependencies
  import opened CleanModel
  import opened DbSteps
  import Clean
  import CleanPhases
  import DbHistory
  import IndexGeneration
  import Tally

  // ----- The database that index generation leaves behind -----

  function SlotListFrom(slots: set<Slot>, files: Files, k: Pubkey): map<Slot, AccountInfo> {
    map s | s in slots && HeldAt(files, s, k) :: AccountInfo(false, files[s][k].IsZeroLamport())
  }

  function IndexFrom(index: IndexGeneration.Index, files: Files): Index {
    map k | k in index :: IndexEntry(SlotListFrom(index[k], files, k), |index[k]|)
  }

  function StoragesFrom(info: map<Slot, IndexGeneration.SizeAndCount>, files: Files): map<Slot, Storage> {
    map s | s in files :: Storage(files[s], IndexGeneration.InfoAt(info, s).count)
  }

  lemma SlotListIsAdded(files: Files, k: Pubkey)
    ensures SlotListFrom(Holders(files, k), files, k) == AddedSlotList(EMPTY, files, {}, k)
  {
    var here, there := SlotListFrom(Holders(files, k), files, k), AddedSlotList(EMPTY, files, {}, k);
    forall s: Slot ensures (s in here <==> s in there) && (s in here ==> here[s] == there[s]) {}
  }

  lemma EntryIsAdded(index: IndexGeneration.Index, files: Files, k: Pubkey)
    requires IndexGeneration.Indexes(index, files, files.Keys)
    ensures k in IndexFrom(index, files) <==> k in Added(EMPTY, files, {}).index
    ensures k in IndexFrom(index, files) ==> IndexFrom(index, files)[k] == Added(EMPTY, files, {}).index[k]
  {
    IndexGeneration.IndexedSlots(index, files, k);
    DbHistory.StartupEntry(files, k);
    SlotListIsAdded(files, k);
  }

  lemma IndexIsAdded(index: IndexGeneration.Index, files: Files)
    requires IndexGeneration.Indexes(index, files, files.Keys)
    ensures IndexFrom(index, files) == Added(EMPTY, files, {}).index
  {
    forall k: Pubkey
      ensures k in IndexFrom(index, files) <==> k in Added(EMPTY, files, {}).index
      ensures k in IndexFrom(index, files) ==> IndexFrom(index, files)[k] == Added(EMPTY, files, {}).index[k]
    {
      EntryIsAdded(index, files, k);
    }
  }

  lemma StorageIsAdded(info: map<Slot, IndexGeneration.SizeAndCount>, files: Files, s: Slot)
    requires IndexGeneration.InfoExact(info, files, files.Keys) && s in files
    ensures IndexGeneration.InfoAt(info, s).count == |files[s]|
  {
    if files[s] == map[] { assert |files[s]| == 0; }
  }

  lemma StoragesAreAdded(info: map<Slot, IndexGeneration.SizeAndCount>, files: Files)
    requires IndexGeneration.InfoExact(info, files, files.Keys)
    ensures StoragesFrom(info, files) == WithFiles(map[], files)
  {
    var here, there := StoragesFrom(info, files), WithFiles(map[], files);
    forall s: Slot ensures s in here <==> s in there { WithFilesAt(map[], files, s); }
    forall s: Slot | s in here ensures here[s] == there[s] { StorageIsAdded(info, files, s); }
  }

  /** The database that startup leaves behind. */
  function Started(index: IndexGeneration.Index, info: map<Slot, IndexGeneration.SizeAndCount>, files: Files): Db {
    Db(IndexFrom(index, files), StoragesFrom(info, files), EMPTY.roots + files.Keys,
       MaxOf(EMPTY.roots + files.Keys + {EMPTY.maxRoot}))
  }

  /** It is the one that adding all storages gives. */
  lemma StartedIsAdded(index: IndexGeneration.Index, info: map<Slot, IndexGeneration.SizeAndCount>, files: Files)
    requires IndexGeneration.Indexes(index, files, files.Keys) && IndexGeneration.InfoExact(info, files, files.Keys)
    ensures Started(index, info, files) == Added(EMPTY, files, {}) && Consistent(Started(index, info, files))
  {
    IndexIsAdded(index, files);
    StoragesAreAdded(info, files);
    DbHistory.StartupReads(files);
  }

  /** The keys of the given storages. */
  function StoreKeys(files: Files, slots: set<Slot>): map<Slot, set<Pubkey>> {
    map s | s in files && s in slots :: files[s].Keys
  }

  method Generate(files: Files, digest: Tally.Digest, threads: nat)
    returns (index: IndexGeneration.Index, info: map<Slot, IndexGeneration.SizeAndCount>,
             uncleaned: map<Slot, set<Pubkey>>, dirty: set<Slot>)
    requires threads > 0
    ensures IndexGeneration.Indexes(index, files, files.Keys) && IndexGeneration.InfoExact(info, files, files.Keys)
    ensures IndexGeneration.UncleanedExact(uncleaned, files)
    ensures dirty == IndexGeneration.AllZeroIn(files, files.Keys)
  {
    var generator := new IndexGeneration.Generator(files, digest);
    var _, _, dirtyStores := generator.GenerateIndex(threads);
    index, info, uncleaned, dirty := generator.index, generator.storageInfo, generator.uncleanedPubkeys, dirtyStores;
  }

  /** A database in memory with the given index and storages, and work for clean. */
  method NewDb(started: Db, dirty: map<Slot, set<Pubkey>>, uncleaned: map<Slot, set<Pubkey>>, snapshot: Option<Slot>)
    returns (db: Clean.AccountsDb)
    requires Consistent(started)
    ensures fresh(db) && db.Valid() && db.Value() == started
    ensures db.dirtyStores == dirty && db.uncleanedPubkeys == uncleaned
    ensures db.latestFullSnapshotSlot == snapshot && db.minOngoingScanRoot == None
  {
    db := new Clean.AccountsDb();
    db.index, db.storages, db.roots, db.maxRoot := started.index, started.storages, started.roots, started.maxRoot;
    db.dirtyStores, db.uncleanedPubkeys, db.latestFullSnapshotSlot := dirty, uncleaned, snapshot;
    assert db.Value() == started;
  }

  /** Start from storages: generate the index, take over the counts, and leave to clean the keys and
      storages that it has to look at. */
  method Start(files: Files, digest: Tally.Digest, threads: nat, snapshot: Option<Slot>)
    returns (db: Clean.AccountsDb)
    requires threads > 0
    ensures fresh(db) && db.Valid() && db.Value() == Added(EMPTY, files, {})
    ensures db.latestFullSnapshotSlot == snapshot && db.minOngoingScanRoot == None
    ensures IndexGeneration.UncleanedExact(db.uncleanedPubkeys, files)
    ensures forall s :: s in db.dirtyStores <==>
      s in files && files[s] != map[] && forall k | k in files[s] :: files[s][k].lamports == 0
    ensures forall s | s in db.dirtyStores :: db.dirtyStores[s] == files[s].Keys
  {
    var index, info, uncleaned, dirty := Generate(files, digest, threads);
    StartedIsAdded(index, info, files);
    db := NewDb(Started(index, info, files), StoreKeys(files, dirty), uncleaned, snapshot);
  }

  // ----- The first clean -----

  ghost predicate IsNewest(files: Files, k: Pubkey, s: Slot) {
    HeldAt(files, s, k) && forall t: Slot | HeldAt(files, t, k) :: t <= s
  }

  lemma StartupEntries(files: Files, k: Pubkey, s: Slot)
    ensures Entry(Added(EMPTY, files, {}).index, k, s).Some? <==> HeldAt(files, s, k)
    ensures Entry(Added(EMPTY, files, {}).index, k, s).Some? ==> StoredAt(Added(EMPTY, files, {}).index, k, s)
  {
    AddedEntries(EMPTY, files, {}, k, s);
  }

  lemma StartupIsFlushed(files: Files, bound: Option<Slot>)
    ensures CleanPhases.Flushed(Added(EMPTY, files, {}), bound)
  {
    forall k: Pubkey, s: Slot | Entry(Added(EMPTY, files, {}).index, k, s).Some?
      ensures StoredAt(Added(EMPTY, files, {}).index, k, s)
    {
      StartupEntries(files, k, s);
    }
  }

  /** The bound covers all storages. */
  predicate Covers(bound: Option<Slot>, files: Files) { forall s | s in files :: WithinBound(s, bound) }

  lemma StartupMaxRoot(files: Files, s: Slot)
    requires s in files
    ensures s <= Added(EMPTY, files, {}).maxRoot
  {
    assert s in EMPTY.roots + files.Keys + {EMPTY.maxRoot};
  }

  /** With a bound that covers all storages, every version but the newest is outdated. */
  lemma OlderIsOutdated(files: Files, bound: Option<Slot>, k: Pubkey, s: Slot, later: Slot)
    requires Covers(bound, files) && HeldAt(files, s, k) && HeldAt(files, later, k) && s < later
    ensures StoredAt(Added(EMPTY, files, {}).index, k, s)
    ensures CleanPhases.NewerRooted(Added(EMPTY, files, {}), bound, k, s)
  {
    StartupEntries(files, k, s);
    StartupEntries(files, k, later);
    assert later in Added(EMPTY, files, {}).roots && WithinBound(later, bound);
  }

  /** A key that is in several slots is among the keys that clean looks at. */
  lemma DuplicateIsScanned(files: Files, uncleaned: map<Slot, set<Pubkey>>, cap: Slot, k: Pubkey, s: Slot)
    requires IndexGeneration.UncleanedExact(uncleaned, files) && forall t | t in files :: t <= cap
    requires HeldAt(files, s, k) && !IsNewest(files, k, s)
    ensures exists t | t in uncleaned :: t <= cap && k in uncleaned[t]
  {
    var later: Slot :| HeldAt(files, later, k) && later > s;
    assert s in Holders(files, k) && later in Holders(files, k);
    IndexGeneration.TwoAreMoreThanOne(Holders(files, k), s, later);
    assert IndexGeneration.Uncleaned(uncleaned, s, k);
  }

  lemma OnlyNewestLeft(
    files: Files, report: Clean.CleanReport, fullSnapshot: Option<Slot>, after: Db, k: Pubkey, s: Slot)
    requires Covers(report.bound, files)
    requires Clean.OutdatedRemoved(Added(EMPTY, files, {}), report)
    requires Clean.ErasableGone(report, fullSnapshot, after)
    requires HeldAt(files, s, k) && !IsNewest(files, k, s) ==> k in report.keys
    requires Entry(after.index, k, s).Some?
    ensures IsNewest(files, k, s)
  {
    SameSlotLists(report.scanned.index, report.cleaned.index);
    assert Entry(report.scanned.index, k, s).Some?;
    assert (s, k) !in report.reclaimed;
    StartupEntries(files, k, s);
    if !IsNewest(files, k, s) {
      var later: Slot :| HeldAt(files, later, k) && later > s;
      OlderIsOutdated(files, report.bound, k, s, later);
      assert false;
    }
  }

  /** A key whose account is restored has an entry. */
  lemma RestoredIsIndexed(db: Db, k: Pubkey)
    requires Consistent(db) && Live(FilesOf(db.storages), k).Some?
    ensures k in db.index
  {
    StoresAreHolders(db.storages, k);
    var s :| s in Stores(db.storages, k);
    assert NewerAlive(db.index, k, s);
  }

  /** What the first clean leaves: at most the newest version of every key in the index, and an entry for
      every account that is restored, which are those of the storages it started from. */
  ghost predicate OnlyNewest(files: Files, db: Db) {
    && (forall k: Pubkey, s: Slot | Entry(db.index, k, s).Some? :: IsNewest(files, k, s))
    && (forall k :: Live(FilesOf(db.storages), k) == Live(files, k))
    && (forall k | Live(files, k).Some? :: k in db.index)
  }

  lemma FirstCleanLeaves(files: Files, uncleaned: map<Slot, set<Pubkey>>, cap: Slot, report: Clean.CleanReport,
                         fullSnapshot: Option<Slot>, after: Db)
    requires Covers(report.bound, files) && forall t | t in files :: t <= cap
    requires IndexGeneration.UncleanedExact(uncleaned, files)
    requires forall k | (exists t | t in uncleaned :: t <= cap && k in uncleaned[t]) :: k in report.keys
    requires Clean.OutdatedRemoved(Added(EMPTY, files, {}), report)
    requires Clean.ErasableGone(report, fullSnapshot, after) && Consistent(after)
    requires forall k :: Live(FilesOf(after.storages), k) == Live(files, k)
    ensures OnlyNewest(files, after)
  {
    forall k: Pubkey, s: Slot | Entry(after.index, k, s).Some? ensures IsNewest(files, k, s) {
      if HeldAt(files, s, k) && !IsNewest(files, k, s) {
        DuplicateIsScanned(files, uncleaned, cap, k, s);
      }
      OnlyNewestLeft(files, report, fullSnapshot, after, k, s);
    }
    forall k | Live(files, k).Some? ensures k in after.index {
      assert Live(FilesOf(after.storages), k) == Live(files, k);
      RestoredIsIndexed(after, k);
    }
  }

  /** Start and clean once, with a bound that covers all storages. */
  method StartAndClean(files: Files, digest: Tally.Digest, threads: nat, snapshot: Option<Slot>, bound: Option<Slot>)
    returns (db: Clean.AccountsDb)
    requires threads > 0 && Covers(bound, files)
    ensures db.Valid() && OnlyNewest(files, db.Value())
  {
    db := Start(files, digest, threads, snapshot);
    ghost var uncleaned, cap := db.uncleanedPubkeys, db.Cap(bound);
    StartupIsFlushed(files, bound);
    DbHistory.StartupReads(files);
    ghost var report := db.CleanAccounts(bound);
    FirstCleanLeaves(files, uncleaned, cap, report, db.latestFullSnapshotSlot, db.Value());
  }
}
