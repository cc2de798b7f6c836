/** The operations that put accounts into the database of `CleanModel` or move them, on values: writes to
    the cache, flushes, startup from storages and shrinks.  Each keeps the database consistent. */
module DbSteps {
  import opened Types
  import opened Rebuild
  import opened DeleteDependencies
  import opened CleanModel

  const EMPTY := Db(map[], map[], {}, 0)

  lemma EmptyIsConsistent()
    ensures Consistent(EMPTY)
  {
  }

  function RefCount(index: Index, k: Pubkey): nat { if k in index then index[k].refCount else 0 }

  function SlotsOf(index: Index, k: Pubkey): set<Slot> { if k in index then index[k].slotList.Keys else {} }

  predicate HeldAt(files: Files, s: Slot, k: Pubkey) { s in files && k in files[s] }

  function KeysIn(files: Files): set<Pubkey> { set s, k | s in files && k in files[s] :: k }

  lemma UnindexedIsUnstored(db: Db, k: Pubkey)
    requires NewestAlive(db) && k !in db.index
    ensures Stores(db.storages, k) == {}
  {
    forall s ensures s !in Stores(db.storages, k) {
      assert s in Stores(db.storages, k) ==> NewerAlive(db.index, k, s);
    }
  }

  // ----- A write to the cache -----

  function CacheWrite(db: Db, k: Pubkey, s: Slot, zero: bool): Db {
    var slotList := if k in db.index then db.index[k].slotList else map[];
    db.(index := db.index[k := IndexEntry(slotList[s := AccountInfo(true, zero)], RefCount(db.index, k))])
  }

  /** Storages and stored entries are as before, and references are counted as before. */
  ghost predicate SameStored(db: Db, after: Db) {
    && after == db.(index := after.index)
    && (forall k: Pubkey, s: Slot :: StoredAt(after.index, k, s) <==> StoredAt(db.index, k, s))
    && (forall k: Pubkey, s: Slot | StoredAt(db.index, k, s) :: Entry(after.index, k, s) == Entry(db.index, k, s))
    && (forall k :: RefCount(after.index, k) == RefCount(db.index, k))
    && (forall k | k in db.index :: k in after.index)
  }

  lemma SameStoredCounts(db: Db, after: Db)
    requires Consistent(db) && SameStored(db, after)
    ensures RefCountsExact(after) && CountsExact(after)
  {
    forall k | k in after.index ensures after.index[k].refCount == |Stores(after.storages, k)| {
      assert RefCount(after.index, k) == RefCount(db.index, k);
      if k !in db.index { UnindexedIsUnstored(db, k); }
    }
    forall s ensures AliveAt(after.index, s) == AliveAt(db.index, s) {
      forall k ensures k in AliveAt(after.index, s) <==> k in AliveAt(db.index, s) {
        assert StoredAt(after.index, k, s) <==> StoredAt(db.index, k, s);
      }
    }
  }

  lemma SameStoredResolves(db: Db, after: Db)
    requires EntriesResolve(db) && SameStored(db, after)
    ensures EntriesResolve(after)
  {
  }

  /** Entries that keep the newest versions of a database alive keep them alive in another one. */
  lemma NewestStaysAlive(db: Db, after: Db, k: Pubkey, s: Slot)
    requires NewestAlive(db) && s in db.storages && k in db.storages[s].accounts
    requires forall t | StoredAt(db.index, k, t) && s <= t :: StoredAt(after.index, k, t)
    ensures k in after.index && NewerAlive(after.index, k, s)
  {
    assert NewerAlive(db.index, k, s);
    var newer :| s <= newer && StoredAt(db.index, k, newer);
    assert StoredAt(after.index, k, newer);
  }

  lemma SameStoredIsConsistent(db: Db, after: Db)
    requires Consistent(db) && SameStored(db, after) && SlotListsNonEmpty(after)
    ensures Consistent(after)
  {
    SameStoredCounts(db, after);
    SameStoredResolves(db, after);
    assert NewestAlive(after) by {
      forall s, k | s in after.storages && k in after.storages[s].accounts
        ensures k in after.index && NewerAlive(after.index, k, s)
      { NewestStaysAlive(db, after, k, s); }
    }
  }

  lemma CacheWriteEntries(db: Db, k: Pubkey, s: Slot, zero: bool, j: Pubkey, t: Slot)
    ensures var after := CacheWrite(db, k, s, zero);
      && Entry(after.index, j, t) == (if j == k && t == s then Some(AccountInfo(true, zero)) else Entry(db.index, j, t))
      && RefCount(after.index, j) == RefCount(db.index, j)
  {
  }

  lemma CacheWriteKeepsStored(db: Db, k: Pubkey, s: Slot, zero: bool)
    requires EntriesResolve(db) && SlotListsNonEmpty(db) && s !in db.storages
    ensures SameStored(db, CacheWrite(db, k, s, zero)) && SlotListsNonEmpty(CacheWrite(db, k, s, zero))
  {
    var after := CacheWrite(db, k, s, zero);
    forall j: Pubkey, t: Slot
      ensures StoredAt(after.index, j, t) <==> StoredAt(db.index, j, t)
      ensures StoredAt(db.index, j, t) ==> Entry(after.index, j, t) == Entry(db.index, j, t)
    {
      CacheWriteEntries(db, k, s, zero, j, t);
    }
    forall j ensures RefCount(after.index, j) == RefCount(db.index, j) { CacheWriteEntries(db, k, s, zero, j, s); }
    assert s in after.index[k].slotList;
  }

  /** A write to the cache for a slot that has no storage. */
  lemma CacheWriteKeepsConsistent(db: Db, k: Pubkey, s: Slot, zero: bool)
    requires Consistent(db) && s !in db.storages
    ensures Consistent(CacheWrite(db, k, s, zero))
  {
    CacheWriteKeepsStored(db, k, s, zero);
    SameStoredIsConsistent(db, CacheWrite(db, k, s, zero));
  }

  // ----- New storages: a flush of the cache, or startup -----

  /** The index entry once the storages in `files` are there and the cached entries in `dropped` are not. */
  function AddedEntry(db: Db, files: Files, dropped: set<Place>, k: Pubkey, s: Slot): Option<AccountInfo> {
    if HeldAt(files, s, k) then Some(AccountInfo(false, files[s][k].IsZeroLamport()))
    else if (s, k) in dropped then None
    else Entry(db.index, k, s)
  }

  function AddedSlotList(db: Db, files: Files, dropped: set<Place>, k: Pubkey): map<Slot, AccountInfo> {
    map s | s in SlotsOf(db.index, k) + Holders(files, k) && AddedEntry(db, files, dropped, k, s).Some? ::
      AddedEntry(db, files, dropped, k, s).value
  }

  function WithFiles(storages: map<Slot, Storage>, files: Files): map<Slot, Storage> {
    storages + map s | s in files :: Storage(files[s], |files[s]|)
  }

  lemma WithFilesAt(storages: map<Slot, Storage>, files: Files, s: Slot)
    ensures s in WithFiles(storages, files) <==> s in storages || s in files
    ensures s in WithFiles(storages, files) ==>
      WithFiles(storages, files)[s].accounts == if s in files then files[s] else storages[s].accounts
  {
  }

  ghost function Added(db: Db, files: Files, dropped: set<Place>): Db {
    var index := map k | k in db.index.Keys + KeysIn(files) && AddedSlotList(db, files, dropped, k) != map[] ::
                   IndexEntry(AddedSlotList(db, files, dropped, k), RefCount(db.index, k) + |Holders(files, k)|);
    Db(index, WithFiles(db.storages, files),
       db.roots + files.Keys, MaxOf(db.roots + files.Keys + {db.maxRoot}))
  }

  /** Storages are added for slots that have none, and only cached entries are dropped. */
  ghost predicate CanAdd(db: Db, files: Files, dropped: set<Place>) {
    && (forall s | s in files :: s !in db.storages)
    && (forall p: Place | p in dropped :: !StoredAt(db.index, p.1, p.0))
  }

  lemma AddedEntries(db: Db, files: Files, dropped: set<Place>, k: Pubkey, s: Slot)
    ensures Entry(Added(db, files, dropped).index, k, s) == AddedEntry(db, files, dropped, k, s)
  {
    var slotList := AddedSlotList(db, files, dropped, k);
    if AddedEntry(db, files, dropped, k, s).Some? {
      assert s in SlotsOf(db.index, k) + Holders(files, k);
      assert s in slotList;
      assert k in db.index.Keys + KeysIn(files);
    }
  }

  lemma AddedResolves(db: Db, files: Files, dropped: set<Place>)
    requires EntriesResolve(db) && CanAdd(db, files, dropped)
    ensures EntriesResolve(Added(db, files, dropped))
  {
    var after := Added(db, files, dropped);
    forall k, s | StoredAt(after.index, k, s)
      ensures s in after.storages && k in after.storages[s].accounts
      ensures Entry(after.index, k, s).value.isZeroLamport <==> after.storages[s].accounts[k].IsZeroLamport()
    {
      AddedEntries(db, files, dropped, k, s);
      assert HeldAt(files, s, k) || StoredAt(db.index, k, s);
    }
  }

  lemma StoresAdd(storages: map<Slot, Storage>, files: Files, k: Pubkey)
    requires forall s | s in files :: s !in storages
    ensures |Stores(WithFiles(storages, files), k)| == |Stores(storages, k)| + |Holders(files, k)|
  {
    var all, before, added := Stores(WithFiles(storages, files), k), Stores(storages, k), Holders(files, k);
    assert all == before + added by {
      forall s ensures s in all <==> s in before + added {}
    }
    assert before * added == {};
  }

  lemma AddedRefCount(db: Db, files: Files, dropped: set<Place>, k: Pubkey)
    requires RefCountsExact(db) && NewestAlive(db) && CanAdd(db, files, dropped)
    ensures var after := Added(db, files, dropped);
      k in after.index ==> after.index[k].refCount == |Stores(after.storages, k)|
  {
    StoresAdd(db.storages, files, k);
    if k !in db.index { UnindexedIsUnstored(db, k); }
  }

  lemma AddedRefCounts(db: Db, files: Files, dropped: set<Place>)
    requires RefCountsExact(db) && NewestAlive(db) && CanAdd(db, files, dropped)
    ensures RefCountsExact(Added(db, files, dropped))
  {
    var after := Added(db, files, dropped);
    forall k | k in after.index ensures after.index[k].refCount == |Stores(after.storages, k)| {
      AddedRefCount(db, files, dropped, k);
    }
  }

  /** A stored entry of the database stays. */
  lemma AddedKeepsStored(db: Db, files: Files, dropped: set<Place>, k: Pubkey, s: Slot)
    requires EntriesResolve(db) && CanAdd(db, files, dropped) && s !in files
    ensures StoredAt(Added(db, files, dropped).index, k, s) <==> StoredAt(db.index, k, s)
  {
    AddedEntries(db, files, dropped, k, s);
    if (s, k) in dropped { assert !StoredAt(db.index, (s, k).1, (s, k).0); }
  }

  lemma AliveInNew(db: Db, files: Files, dropped: set<Place>, s: Slot)
    requires EntriesResolve(db) && CanAdd(db, files, dropped) && s in files
    ensures AliveAt(Added(db, files, dropped).index, s) == files[s].Keys
  {
    var index := Added(db, files, dropped).index;
    forall k ensures k in AliveAt(index, s) <==> k in files[s] {
      AddedEntries(db, files, dropped, k, s);
      assert !StoredAt(db.index, k, s);
    }
  }

  lemma AliveInOld(db: Db, files: Files, dropped: set<Place>, s: Slot)
    requires EntriesResolve(db) && CanAdd(db, files, dropped) && s !in files
    ensures AliveAt(Added(db, files, dropped).index, s) == AliveAt(db.index, s)
  {
    var index := Added(db, files, dropped).index;
    forall k ensures k in AliveAt(index, s) <==> k in AliveAt(db.index, s) {
      AddedKeepsStored(db, files, dropped, k, s);
    }
  }

  lemma AddedCounts(db: Db, files: Files, dropped: set<Place>, s: Slot)
    requires EntriesResolve(db) && CountsExact(db) && CanAdd(db, files, dropped)
    requires s in Added(db, files, dropped).storages
    ensures Added(db, files, dropped).storages[s].count == |AliveAt(Added(db, files, dropped).index, s)|
  {
    if s in files {
      AliveInNew(db, files, dropped, s);
    } else {
      AliveInOld(db, files, dropped, s);
    }
  }

  lemma AddedNewest(db: Db, files: Files, dropped: set<Place>, k: Pubkey, s: Slot)
    requires EntriesResolve(db) && NewestAlive(db) && CanAdd(db, files, dropped)
    requires HeldAt(files, s, k) || s in Stores(db.storages, k)
    ensures k in Added(db, files, dropped).index && NewerAlive(Added(db, files, dropped).index, k, s)
  {
    var after := Added(db, files, dropped);
    if s in files {
      AddedEntries(db, files, dropped, k, s);
      assert StoredAt(after.index, k, s);
    } else {
      forall t | StoredAt(db.index, k, t) && s <= t ensures StoredAt(after.index, k, t) {
        AddedKeepsStored(db, files, dropped, k, t);
      }
      NewestStaysAlive(db, after, k, s);
    }
  }

  lemma AddedCountsExact(db: Db, files: Files, dropped: set<Place>)
    requires EntriesResolve(db) && CountsExact(db) && CanAdd(db, files, dropped)
    ensures CountsExact(Added(db, files, dropped))
  {
    var after := Added(db, files, dropped);
    forall s | s in after.storages ensures after.storages[s].count == |AliveAt(after.index, s)| {
      AddedCounts(db, files, dropped, s);
    }
  }

  lemma AddedNewestAt(db: Db, files: Files, dropped: set<Place>, s: Slot, k: Pubkey)
    requires EntriesResolve(db) && NewestAlive(db) && CanAdd(db, files, dropped)
    requires var after := Added(db, files, dropped); s in after.storages && k in after.storages[s].accounts
    ensures var after := Added(db, files, dropped); k in after.index && NewerAlive(after.index, k, s)
  {
    WithFilesAt(db.storages, files, s);
    AddedNewest(db, files, dropped, k, s);
  }

  lemma AddedNewestAlive(db: Db, files: Files, dropped: set<Place>)
    requires EntriesResolve(db) && NewestAlive(db) && CanAdd(db, files, dropped)
    ensures NewestAlive(Added(db, files, dropped))
  {
    var after := Added(db, files, dropped);
    forall s, k | s in after.storages && k in after.storages[s].accounts
      ensures k in after.index && NewerAlive(after.index, k, s)
    {
      AddedNewestAt(db, files, dropped, s, k);
    }
  }

  lemma AddedBounds(db: Db, files: Files, dropped: set<Place>)
    requires RootsBounded(db)
    ensures RootsBounded(Added(db, files, dropped)) && SlotListsNonEmpty(Added(db, files, dropped))
  {
    var after := Added(db, files, dropped);
    forall s | s in after.storages ensures s in after.roots { WithFilesAt(db.storages, files, s); }
    forall r | r in after.roots ensures r <= after.maxRoot {
      assert r in db.roots + files.Keys + {db.maxRoot};
    }
  }

  /** Adding storages, as a flush does root by root and startup for all storages, keeps the database
      consistent. */
  lemma AddedIsConsistent(db: Db, files: Files, dropped: set<Place>)
    requires Consistent(db) && CanAdd(db, files, dropped)
    ensures Consistent(Added(db, files, dropped))
  {
    AddedBounds(db, files, dropped);
    AddedResolves(db, files, dropped);
    AddedRefCounts(db, files, dropped);
    AddedCountsExact(db, files, dropped);
    AddedNewestAlive(db, files, dropped);
  }

  // ----- Shrinking one storage -----

  /** A zero-lamport account that is stored nowhere else and that no incremental snapshot needs. */
  predicate Erases(db: Db, s: Slot, snapshot: Option<Slot>, k: Pubkey) {
    && StoredAt(db.index, k, s) && Entry(db.index, k, s).value.isZeroLamport
    && RefCount(db.index, k) == 1 && (snapshot.None? || s <= snapshot.value)
  }

  /** The accounts that are copied to the new storage. */
  function Kept(db: Db, s: Slot, snapshot: Option<Slot>): map<Pubkey, Account>
    requires s in db.storages
  {
    map k | k in db.storages[s].accounts && StoredAt(db.index, k, s) && !Erases(db, s, snapshot, k) ::
      db.storages[s].accounts[k]
  }

  predicate Leaves(db: Db, s: Slot, snapshot: Option<Slot>, k: Pubkey)
    requires s in db.storages
  {
    k in db.storages[s].accounts && k !in Kept(db, s, snapshot)
  }

  function ShrunkEntry(db: Db, s: Slot, snapshot: Option<Slot>, k: Pubkey): IndexEntry
    requires s in db.storages && k in db.index
  {
    var entry := db.index[k];
    IndexEntry(if Erases(db, s, snapshot, k) then entry.slotList - {s} else entry.slotList,
               if Leaves(db, s, snapshot, k) && entry.refCount > 0 then entry.refCount - 1 else entry.refCount)
  }

  /** A shrink that would keep nothing is skipped and left to clean. */
  function Shrunk(db: Db, s: Slot, snapshot: Option<Slot>): Db
    requires s in db.storages
  {
    var kept := Kept(db, s, snapshot);
    if kept == map[] then db
    else
      db.(index := map k | k in db.index && ShrunkEntry(db, s, snapshot, k).slotList != map[] ::
                     ShrunkEntry(db, s, snapshot, k),
          storages := db.storages[s := Storage(kept, |kept|)])
  }

  /** The shrink runs. */
  predicate Shrinks(db: Db, s: Slot, snapshot: Option<Slot>)
  {
    s in db.storages && Kept(db, s, snapshot) != map[]
  }

  lemma ShrunkEntries(db: Db, s: Slot, snapshot: Option<Slot>, k: Pubkey, t: Slot)
    requires Shrinks(db, s, snapshot)
    ensures Entry(Shrunk(db, s, snapshot).index, k, t) ==
      if t == s && Erases(db, s, snapshot, k) then None else Entry(db.index, k, t)
  {
    if k in db.index && t in ShrunkEntry(db, s, snapshot, k).slotList {
      assert ShrunkEntry(db, s, snapshot, k).slotList != map[];
    }
  }

  lemma ShrunkResolves(db: Db, s: Slot, snapshot: Option<Slot>)
    requires Shrinks(db, s, snapshot) && EntriesResolve(db)
    ensures EntriesResolve(Shrunk(db, s, snapshot))
  {
    var after := Shrunk(db, s, snapshot);
    forall k, t | StoredAt(after.index, k, t)
      ensures t in after.storages && k in after.storages[t].accounts
      ensures Entry(after.index, k, t).value.isZeroLamport <==> after.storages[t].accounts[k].IsZeroLamport()
    {
      ShrunkEntries(db, s, snapshot, k, t);
      assert StoredAt(db.index, k, t);
    }
  }

  lemma ShrunkStores(db: Db, s: Slot, snapshot: Option<Slot>, k: Pubkey)
    requires Shrinks(db, s, snapshot)
    ensures Stores(Shrunk(db, s, snapshot).storages, k) ==
      if Leaves(db, s, snapshot, k) then Stores(db.storages, k) - {s} else Stores(db.storages, k)
  {
  }

  lemma ShrunkRefCounts(db: Db, s: Slot, snapshot: Option<Slot>)
    requires Shrinks(db, s, snapshot) && RefCountsExact(db)
    ensures RefCountsExact(Shrunk(db, s, snapshot))
  {
    var after := Shrunk(db, s, snapshot);
    forall k | k in after.index ensures after.index[k].refCount == |Stores(after.storages, k)| {
      ShrunkStores(db, s, snapshot, k);
      if Leaves(db, s, snapshot, k) { assert s in Stores(db.storages, k); }
    }
  }

  lemma ShrunkCounts(db: Db, s: Slot, snapshot: Option<Slot>, t: Slot)
    requires Shrinks(db, s, snapshot) && EntriesResolve(db) && CountsExact(db)
    requires t in db.storages
    ensures Shrunk(db, s, snapshot).storages[t].count == |AliveAt(Shrunk(db, s, snapshot).index, t)|
  {
    var after := Shrunk(db, s, snapshot);
    if t == s {
      assert AliveAt(after.index, s) == Kept(db, s, snapshot).Keys by {
        forall k ensures k in AliveAt(after.index, s) <==> k in Kept(db, s, snapshot) {
          ShrunkEntries(db, s, snapshot, k, s);
          assert StoredAt(db.index, k, s) ==> k in db.storages[s].accounts;
        }
      }
    } else {
      assert AliveAt(after.index, t) == AliveAt(db.index, t) by {
        forall k ensures k in AliveAt(after.index, t) <==> k in AliveAt(db.index, t) {
          ShrunkEntries(db, s, snapshot, k, t);
        }
      }
    }
  }

  /** An erased key is stored nowhere else. */
  lemma ErasedIsOnlyHere(db: Db, s: Slot, snapshot: Option<Slot>, k: Pubkey)
    requires EntriesResolve(db) && RefCountsExact(db) && Erases(db, s, snapshot, k)
    ensures Stores(db.storages, k) == {s}
  {
    assert StoredAt(db.index, k, s);
    assert s in Stores(db.storages, k);
    assert |Stores(db.storages, k) - {s}| == 0;
    assert Stores(db.storages, k) == (Stores(db.storages, k) - {s}) + {s};
  }

  /** A shrink erases the accounts without lamports that are stored nowhere else and that no snapshot, or one
      taken at the slot or later, needs. */
  lemma ErasesIff(db: Db, s: Slot, snapshot: Option<Slot>, k: Pubkey)
    requires Consistent(db) && s in db.storages
    ensures Erases(db, s, snapshot, k) <==>
      && k in db.storages[s].accounts && StoredAt(db.index, k, s)
      && db.storages[s].accounts[k].lamports == 0 && Stores(db.storages, k) == {s}
      && (snapshot.None? || s <= snapshot.value)
  {
    if Erases(db, s, snapshot, k) { ErasedIsOnlyHere(db, s, snapshot, k); }
    if StoredAt(db.index, k, s) {
      assert db.index[k].refCount == |Stores(db.storages, k)|;
      assert |{s}| == 1;
    }
  }

  /** When some alive account is not erased the shrink runs, and the new storage holds exactly those; the
      erased ones, and no others, lose their entry.  Otherwise nothing changes. */
  lemma ShrinkKeepsExactly(db: Db, s: Slot, snapshot: Option<Slot>, k: Pubkey, t: Slot)
    requires Consistent(db) && s in db.storages
    ensures var after := Shrunk(db, s, snapshot);
      if exists j | j in db.storages[s].accounts ::
           && StoredAt(db.index, j, s)
           && !(db.storages[s].accounts[j].lamports == 0 && Stores(db.storages, j) == {s}
                && (snapshot.None? || s <= snapshot.value))
      then
        && s in after.storages && after.storages.Keys == db.storages.Keys && after.roots == db.roots
        && (t in db.storages && t != s ==> after.storages[t] == db.storages[t])
        && (k in after.storages[s].accounts <==>
              && k in db.storages[s].accounts && StoredAt(db.index, k, s)
              && !(db.storages[s].accounts[k].lamports == 0 && Stores(db.storages, k) == {s}
                   && (snapshot.None? || s <= snapshot.value)))
        && (k in after.storages[s].accounts ==> after.storages[s].accounts[k] == db.storages[s].accounts[k])
        && Entry(after.index, k, t) ==
           (if && t == s && k in db.storages[s].accounts && StoredAt(db.index, k, s)
               && db.storages[s].accounts[k].lamports == 0 && Stores(db.storages, k) == {s}
               && (snapshot.None? || s <= snapshot.value)
            then None else Entry(db.index, k, t))
      else after == db
  {
    ErasesIff(db, s, snapshot, k);
    if Shrinks(db, s, snapshot) {
      var j :| j in Kept(db, s, snapshot);
      ErasesIff(db, s, snapshot, j);
      ShrunkEntries(db, s, snapshot, k, t);
    } else {
      forall j | j in db.storages[s].accounts && StoredAt(db.index, j, s)
        ensures && db.storages[s].accounts[j].lamports == 0 && Stores(db.storages, j) == {s}
                && (snapshot.None? || s <= snapshot.value)
      {
        ErasesIff(db, s, snapshot, j);
        assert j !in Kept(db, s, snapshot);
      }
    }
  }

  lemma ShrunkNewest(db: Db, s: Slot, snapshot: Option<Slot>, k: Pubkey, t: Slot)
    requires Shrinks(db, s, snapshot) && EntriesResolve(db) && RefCountsExact(db) && NewestAlive(db)
    requires t in Stores(db.storages, k) && (t == s ==> !Leaves(db, s, snapshot, k))
    ensures k in Shrunk(db, s, snapshot).index && NewerAlive(Shrunk(db, s, snapshot).index, k, t)
  {
    var after := Shrunk(db, s, snapshot);
    ShrunkStores(db, s, snapshot, k);
    if Erases(db, s, snapshot, k) {
      ErasedIsOnlyHere(db, s, snapshot, k);
      assert false;
    }
    forall newer | StoredAt(db.index, k, newer) ensures StoredAt(after.index, k, newer) {
      ShrunkEntries(db, s, snapshot, k, newer);
    }
    NewestStaysAlive(db, after, k, t);
  }

  /** Rewriting a storage with its alive accounts keeps the database consistent. */
  lemma ShrunkIsConsistent(db: Db, s: Slot, snapshot: Option<Slot>)
    requires Consistent(db) && s in db.storages
    ensures Consistent(Shrunk(db, s, snapshot))
  {
    if Shrinks(db, s, snapshot) {
      var after := Shrunk(db, s, snapshot);
      ShrunkResolves(db, s, snapshot);
      ShrunkRefCounts(db, s, snapshot);
      assert CountsExact(after) by {
        forall t | t in after.storages ensures after.storages[t].count == |AliveAt(after.index, t)| {
          ShrunkCounts(db, s, snapshot, t);
        }
      }
      assert NewestAlive(after) by {
        forall t, k | t in after.storages && k in after.storages[t].accounts
          ensures k in after.index && NewerAlive(after.index, k, t)
        { ShrunkNewest(db, s, snapshot, k, t); }
      }
    }
  }
}
