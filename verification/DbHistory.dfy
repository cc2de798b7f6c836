/** Runs of the whole database: cached writes, flushes, dead forks, shrinks, cleans, full snapshots and
    restarts, in any order.  However often background work rewrites or removes storages, what a restart
    would read is what was last written to the slots that were flushed. */
module DbHistory {
  import opened Types
  import opened Rebuild
  import opened DeleteDependencies
  import opened CleanModel
  import opened CleanPhases
  import opened DbSteps
  import Clean
  import IndexGeneration

  /** The database, the write cache, the latest full snapshot, and all accounts that were written to the
      slots that have been flushed. */
  datatype State = State(db: Db, cache: Files, snapshot: Option<Slot>, full: Files, history: Files)

  datatype Step =
    | Write(k: Pubkey, s: Slot, account: Account)
      /** The roots in `slots` are flushed; of their accounts those in `dropped` are not stored. */
    | Flush(slots: set<Slot>, dropped: set<Place>)
      /** A cached slot on a dead fork is purged. */
    | Purge(s: Slot)
    | Shrink(s: Slot)
    | DoClean(after: Db)
    | TakeFullSnapshot(slot: Slot)
      /** A restart from the storages on disk; the cache is lost. */
    | Restart
      /** A restart from the full snapshot and an incremental one with all later storages. */
    | RestartFromSnapshot

  /** The slot is later than everything that was flushed. */
  predicate Above(state: State, s: Slot) {
    (forall t | t in state.history :: t < s) && (state.snapshot.Some? ==> state.snapshot.value < s)
  }

  function Only(files: Files, slots: set<Slot>): Files { map s | s in files && s in slots :: files[s] }

  /** What a flush stores. */
  function Written(batch: Files, dropped: set<Place>): Files {
    map s | s in batch && (exists k :: k in batch[s] && (s, k) !in dropped) ::
      map k | k in batch[s] && (s, k) !in dropped :: batch[s][k]
  }

  /** Only accounts that a later root of the batch supersedes are dropped. */
  ghost predicate DropsSuperseded(batch: Files, dropped: set<Place>) {
    forall s: Slot, k: Pubkey | HeldAt(batch, s, k) && (s, k) in dropped ::
      exists t :: s < t && HeldAt(batch, t, k)
  }

  ghost predicate CanFlush(state: State, batch: Files, dropped: set<Place>) {
    && (forall s | s in batch :: Above(state, s))
    && (forall p: Place | p in dropped :: HeldAt(batch, p.0, p.1)) && DropsSuperseded(batch, dropped)
  }

  ghost predicate Enabled(state: State, step: Step) {
    match step
    case Write(_, s, _) => Above(state, s)
    case Flush(slots, dropped) => CanFlush(state, Only(state.cache, slots), dropped)
    case Purge(s) => s in state.cache
    case Shrink(s) => s in state.db.storages
    case DoClean(after) =>
      && Consistent(after) && Clean.OnlyStoredLeave(state.db, after)
      && Clean.CleanOutcome(state.db.storages, state.snapshot, after.storages)
    case TakeFullSnapshot(slot) => state.snapshot.Some? ==> state.snapshot.value <= slot
    case Restart => true
    case RestartFromSnapshot => state.snapshot.Some?
  }

  function UpTo(files: Files, slot: Slot): Files { map s | s in files && s <= slot :: files[s] }

  function Merged(lower: Files, upper: Files): Files { lower + upper }

  function WriteTo(cache: Files, k: Pubkey, s: Slot, account: Account): Files {
    cache[s := (if s in cache then cache[s] else map[])[k := account]]
  }

  function PlacesOf(cache: Files, s: Slot): set<Place>
    requires s in cache
  {
    set k | k in cache[s] :: (s, k)
  }

  ghost function Flushed(state: State, batch: Files, dropped: set<Place>): State {
    state.(db := Added(state.db, Written(batch, dropped), dropped), cache := state.cache - batch.Keys,
           history := Merged(state.history, batch))
  }

  ghost function Restarted(state: State, files: Files): State {
    state.(db := Added(EMPTY, files, {}), cache := map[])
  }

  ghost function Apply(state: State, step: Step): State
    requires Enabled(state, step)
  {
    var files := FilesOf(state.db.storages);
    match step
    case Write(k, s, account) =>
      state.(db := CacheWrite(state.db, k, s, account.IsZeroLamport()), cache := WriteTo(state.cache, k, s, account))
    case Flush(slots, dropped) => Flushed(state, Only(state.cache, slots), dropped)
    case Purge(s) =>
      state.(db := Added(state.db, map[], PlacesOf(state.cache, s)), cache := state.cache - {s})
    case Shrink(s) => state.(db := Shrunk(state.db, s, state.snapshot))
    case DoClean(after) => state.(db := after)
    case TakeFullSnapshot(slot) => state.(snapshot := Some(slot), full := UpTo(files, slot))
    case Restart => Restarted(state, files)
    case RestartFromSnapshot => Restarted(state, Restore(state.full, files, state.snapshot.value))
  }

  // ----- The invariant -----

  /** A restart from `files` reads what was last written to the flushed slots. */
  ghost predicate Faithful(files: Files, history: Files) {
    forall k :: Live(files, k) == Live(history, k)
  }

  ghost predicate SlotsKnown(state: State) {
    && state.db.storages.Keys <= state.history.Keys
    && state.full.Keys <= state.history.Keys
  }

  ghost predicate Durable(state: State) {
    && Consistent(state.db) && SlotsKnown(state)
    && Faithful(FilesOf(state.db.storages), state.history)
    && (state.snapshot.Some? ==>
          Faithful(Restore(state.full, FilesOf(state.db.storages), state.snapshot.value), state.history))
  }

  /** What the index says about the cached version of `k` in slot `s`. */
  function CachedEntry(index: Index, k: Pubkey, s: Slot): Option<AccountInfo> {
    var entry := Entry(index, k, s);
    if entry.Some? && entry.value.isCached then entry else None
  }

  function CachedInfo(cache: Files, k: Pubkey, s: Slot): Option<AccountInfo> {
    if HeldAt(cache, s, k) then Some(AccountInfo(true, cache[s][k].IsZeroLamport())) else None
  }

  /** The cached entries of the index are exactly the accounts in the cache. */
  ghost predicate CacheIndexed(index: Index, cache: Files) {
    forall k: Pubkey, s: Slot :: CachedEntry(index, k, s) == CachedInfo(cache, k, s)
  }

  /** Cached slots have not been flushed; only flushed slots are roots of the database. */
  ghost predicate CacheOk(state: State) {
    && CacheIndexed(state.db.index, state.cache)
    && (forall s | s in state.cache :: s !in state.history)
    && (forall s | s in state.db.roots :: s in state.history)
  }

  ghost predicate Inv(state: State) { Durable(state) && CacheOk(state) }

  // ----- Flush -----

  /** Slots above all others decide about the keys they hold. */
  lemma UpperDecides(lower: Files, upper: Files, k: Pubkey)
    requires forall s, t | s in lower && t in upper :: s < t
    ensures Live(Merged(lower, upper), k) == if Holders(upper, k) == {} then Live(lower, k) else Live(upper, k)
  {
    var all := Merged(lower, upper);
    if Holders(upper, k) == {} {
      forall s ensures s in Holders(all, k) <==> s in Holders(lower, k) {
        assert s in lower && s in upper ==> s < s;
        assert s !in Holders(upper, k);
      }
      assert Holders(all, k) == Holders(lower, k);
    } else {
      var newest := MaxOf(Holders(upper, k));
      assert newest in Holders(all, k);
      forall s | s in Holders(all, k) ensures s <= newest {
        if s in upper { assert s in Holders(upper, k); }
      }
    }
  }

  /** Superseded accounts make no difference. */
  lemma WrittenIsLive(batch: Files, dropped: set<Place>, k: Pubkey)
    requires DropsSuperseded(batch, dropped)
    ensures Live(Written(batch, dropped), k) == Live(batch, k)
    ensures Holders(Written(batch, dropped), k) == {} <==> Holders(batch, k) == {}
  {
    var written := Written(batch, dropped);
    assert Holders(written, k) <= Holders(batch, k);
    if Holders(batch, k) != {} {
      var newest := MaxOf(Holders(batch, k));
      assert HeldAt(batch, newest, k);
      forall t | HeldAt(batch, t, k) ensures t <= newest { assert t in Holders(batch, k); }
      assert (newest, k) !in dropped;
      assert newest in written && k in written[newest];
      assert newest in Holders(written, k);
    }
  }

  lemma FlushKeepsFaithful(files: Files, history: Files, batch: Files, dropped: set<Place>)
    requires Faithful(files, history) && DropsSuperseded(batch, dropped)
    requires forall s, t | s in files && t in batch :: s < t
    requires forall s, t | s in history && t in batch :: s < t
    ensures Faithful(Merged(files, Written(batch, dropped)), Merged(history, batch))
  {
    var written := Written(batch, dropped);
    forall k ensures Live(Merged(files, written), k) == Live(Merged(history, batch), k) {
      assert Live(files, k) == Live(history, k);
      WrittenIsLive(batch, dropped, k);
      UpperDecides(files, written, k);
      UpperDecides(history, batch, k);
    }
  }

  lemma AddedFiles(storages: map<Slot, Storage>, files: Files)
    ensures FilesOf(WithFiles(storages, files)) == Merged(FilesOf(storages), files)
  {
    var all, merged := FilesOf(WithFiles(storages, files)), Merged(FilesOf(storages), files);
    forall s: Slot ensures (s in all <==> s in merged) && (s in all ==> all[s] == merged[s]) {
      WithFilesAt(storages, files, s);
    }
  }

  lemma RestoreMerged(full: Files, files: Files, written: Files, slot: Slot)
    requires forall s | s in written :: slot < s
    ensures Restore(full, Merged(files, written), slot) == Merged(Restore(full, files, slot), written)
  {
  }

  lemma FlushCanAdd(state: State, batch: Files, dropped: set<Place>)
    requires Durable(state) && CanFlush(state, batch, dropped)
    ensures CanAdd(state.db, Written(batch, dropped), dropped)
  {
    forall s | s in batch ensures s !in state.db.storages {
      assert Above(state, s);
    }
    forall p: Place | p in dropped ensures !StoredAt(state.db.index, p.1, p.0) {
      assert HeldAt(batch, p.0, p.1);
    }
  }

  lemma FlushKeeps(state: State, batch: Files, dropped: set<Place>)
    requires Durable(state) && CanFlush(state, batch, dropped)
    ensures Durable(Flushed(state, batch, dropped))
  {
    var files, written := FilesOf(state.db.storages), Written(batch, dropped);
    FlushCanAdd(state, batch, dropped);
    AddedIsConsistent(state.db, written, dropped);
    AddedFiles(state.db.storages, written);
    forall s, t | s in state.history && t in batch ensures s < t { assert Above(state, t); }
    FlushKeepsFaithful(files, state.history, batch, dropped);
    if state.snapshot.Some? {
      var slot := state.snapshot.value;
      forall t | t in batch ensures slot < t { assert Above(state, t); }
      RestoreMerged(state.full, files, written, slot);
      FlushKeepsFaithful(Restore(state.full, files, slot), state.history, batch, dropped);
    }
  }

  /** A flush stores exactly the accounts of its cached slots that are not dropped, and leaves the other
      storages alone; a slot of which everything is dropped gets no storage. */
  lemma FlushStoresExactly(state: State, slots: set<Slot>, dropped: set<Place>, s: Slot)
    requires Durable(state) && Enabled(state, Flush(slots, dropped))
    ensures var before, after := state.db.storages, Apply(state, Flush(slots, dropped)).db.storages;
      if s in slots && s in state.cache then
        && (s in after <==> exists k | k in state.cache[s] :: (s, k) !in dropped)
        && (s in after ==> forall k ::
              && (k in after[s].accounts <==> k in state.cache[s] && (s, k) !in dropped)
              && (k in after[s].accounts ==> after[s].accounts[k] == state.cache[s][k]))
      else (s in after <==> s in before) && (s in before ==> after[s] == before[s])
    ensures s in Apply(state, Flush(slots, dropped)).cache <==> s in state.cache && s !in slots
  {
    var batch := Only(state.cache, slots);
    WithFilesAt(state.db.storages, Written(batch, dropped), s);
    if s in batch { assert Above(state, s); }
  }

  /** A full snapshot holds exactly the storages up to its slot. */
  lemma SnapshotHoldsExactly(state: State, slot: Slot, s: Slot)
    requires Enabled(state, TakeFullSnapshot(slot))
    ensures var after := Apply(state, TakeFullSnapshot(slot));
      && after.snapshot == Some(slot) && (s in after.full <==> s in state.db.storages && s <= slot)
      && (s in after.full ==> after.full[s] == state.db.storages[s].accounts)
  {
  }

  // ----- Shrink -----

  /** `after` is `before` with some accounts of slot `s` left out. */
  ghost predicate Trims(before: Files, after: Files, s: Slot) {
    && (forall t :: t in after <==> t in before)
    && (forall t | t in after && t != s :: after[t] == before[t])
    && (s in after ==> forall k | k in after[s] :: k in before[s] && after[s][k] == before[s][k])
  }

  /** Leaving out an account is harmless when a newer version is there, or when it was the only version
      and had zero lamports. */
  lemma TrimKeepsLive(before: Files, after: Files, s: Slot, k: Pubkey)
    requires Trims(before, after, s)
    requires HeldAt(before, s, k) && !HeldAt(after, s, k) ==>
      || (exists t :: s < t && HeldAt(before, t, k))
      || (before[s][k].IsZeroLamport() && Holders(before, k) == {s})
    ensures Live(after, k) == Live(before, k)
  {
    forall t ensures t in Holders(after, k) <==> HeldAt(after, t, k) {}
    if HeldAt(before, s, k) && !HeldAt(after, s, k) {
      assert Holders(after, k) == Holders(before, k) - {s} by {
        forall t: Slot ensures t in Holders(after, k) <==> t in Holders(before, k) - {s} {
          assert t in after <==> t in before;
          assert t != s && t in before ==> after[t] == before[t];
          assert t in Holders(before, k) <==> HeldAt(before, t, k);
        }
      }
      if t :| s < t && HeldAt(before, t, k) {
        assert t in Holders(before, k);
        assert MaxOf(Holders(before, k)) in Holders(after, k);
      }
    } else {
      assert Holders(after, k) == Holders(before, k) by {
        forall t ensures t in Holders(after, k) <==> t in Holders(before, k) {}
      }
    }
  }

  /** What leaves a storage in a shrink has a newer version, or is erased. */
  lemma LeavesForGood(db: Db, s: Slot, snapshot: Option<Slot>, k: Pubkey)
    requires Consistent(db) && Shrinks(db, s, snapshot) && Leaves(db, s, snapshot, k)
    ensures || (exists t :: s < t && HeldAt(FilesOf(db.storages), t, k))
            || (Erases(db, s, snapshot, k) && db.storages[s].accounts[k].IsZeroLamport()
                && Holders(FilesOf(db.storages), k) == {s})
  {
    if Erases(db, s, snapshot, k) {
      ErasedIsOnlyHere(db, s, snapshot, k);
      StoresAreHolders(db.storages, k);
    } else {
      assert NewerAlive(db.index, k, s);
      var t :| s <= t && StoredAt(db.index, k, t);
      assert t != s;
      assert HeldAt(FilesOf(db.storages), t, k);
    }
  }

  lemma ShrinkTrims(db: Db, s: Slot, snapshot: Option<Slot>)
    requires Shrinks(db, s, snapshot)
    ensures Trims(FilesOf(db.storages), FilesOf(Shrunk(db, s, snapshot).storages), s)
  {
  }

  lemma ShrinkKeepsLive(db: Db, s: Slot, snapshot: Option<Slot>, k: Pubkey)
    requires Consistent(db) && Shrinks(db, s, snapshot)
    ensures Live(FilesOf(Shrunk(db, s, snapshot).storages), k) == Live(FilesOf(db.storages), k)
  {
    ShrinkTrims(db, s, snapshot);
    if Leaves(db, s, snapshot, k) {
      LeavesForGood(db, s, snapshot, k);
    }
    TrimKeepsLive(FilesOf(db.storages), FilesOf(Shrunk(db, s, snapshot).storages), s, k);
  }

  lemma RestoreTrims(full: Files, before: Files, after: Files, slot: Slot, s: Slot)
    requires Trims(before, after, s)
    ensures Trims(Restore(full, before, slot), Restore(full, after, slot), s)
    ensures s <= slot ==> Restore(full, after, slot) == Restore(full, before, slot)
  {
    var restored, restored' := Restore(full, before, slot), Restore(full, after, slot);
    forall t ensures t in restored' <==> t in restored {}
    forall t | t in restored' && (t != s || s <= slot) ensures restored'[t] == restored[t] {}
  }

  lemma ShrinkKeepsRestored(db: Db, s: Slot, snapshot: Slot, full: Files, k: Pubkey)
    requires Consistent(db) && Shrinks(db, s, Some(snapshot))
    ensures Live(Restore(full, FilesOf(Shrunk(db, s, Some(snapshot)).storages), snapshot), k)
         == Live(Restore(full, FilesOf(db.storages), snapshot), k)
  {
    var files, files' := FilesOf(db.storages), FilesOf(Shrunk(db, s, Some(snapshot)).storages);
    ShrinkTrims(db, s, Some(snapshot));
    RestoreTrims(full, files, files', snapshot, s);
    if s > snapshot {
      if Leaves(db, s, Some(snapshot), k) {
        LeavesForGood(db, s, Some(snapshot), k);
        var t :| s < t && HeldAt(files, t, k);
        assert HeldAt(Restore(full, files, snapshot), t, k);
      }
      TrimKeepsLive(Restore(full, files, snapshot), Restore(full, files', snapshot), s, k);
    }
  }

  lemma ShrinkKeeps(state: State, s: Slot)
    requires Durable(state) && s in state.db.storages
    ensures Durable(Apply(state, Shrink(s)))
  {
    ShrunkIsConsistent(state.db, s, state.snapshot);
    if Shrinks(state.db, s, state.snapshot) {
      var files' := FilesOf(Shrunk(state.db, s, state.snapshot).storages);
      forall k ensures Live(files', k) == Live(state.history, k) {
        ShrinkKeepsLive(state.db, s, state.snapshot, k);
      }
      if state.snapshot.Some? {
        forall k ensures Live(Restore(state.full, files', state.snapshot.value), k) == Live(state.history, k) {
          ShrinkKeepsRestored(state.db, s, state.snapshot.value, state.full, k);
        }
      }
    }
  }

  // ----- Clean, snapshots and restarts -----

  lemma CleanKeeps(state: State, after: Db)
    requires Durable(state) && Enabled(state, DoClean(after))
    ensures Durable(Apply(state, DoClean(after)))
  {
    assert FilesOf(after.storages).Keys == after.storages.Keys;
    assert Prunes(FilesOf(state.db.storages), FilesOf(after.storages));
  }

  lemma SnapshotKeeps(state: State, slot: Slot)
    requires Durable(state) && Enabled(state, TakeFullSnapshot(slot))
    ensures Durable(Apply(state, TakeFullSnapshot(slot)))
  {
    var files := FilesOf(state.db.storages);
    assert Restore(UpTo(files, slot), files, slot) == files;
  }

  lemma StartupReads(files: Files)
    ensures Consistent(Added(EMPTY, files, {})) && FilesOf(Added(EMPTY, files, {}).storages) == files
  {
    EmptyIsConsistent();
    AddedIsConsistent(EMPTY, files, {});
    FilesOfNew(files);
  }

  lemma FilesOfNew(files: Files)
    ensures FilesOf(WithFiles(map[], files)) == files
  {
    var all := FilesOf(WithFiles(map[], files));
    forall s ensures s in all <==> s in files {}
    forall s | s in all ensures all[s] == files[s] {}
  }

  lemma StartupEntry(files: Files, k: Pubkey)
    ensures var index := Added(EMPTY, files, {}).index;
      && (k in index <==> Holders(files, k) != {})
      && (k in index ==> index[k].slotList.Keys == Holders(files, k) && index[k].refCount == |Holders(files, k)|)
  {
    var slotList := AddedSlotList(EMPTY, files, {}, k);
    forall s ensures s in slotList <==> s in Holders(files, k) {}
    assert slotList.Keys == Holders(files, k);
    assert Holders(files, k) != {} ==> k in KeysIn(files) by {
      if s :| s in Holders(files, k) { assert HeldAt(files, s, k); }
    }
    assert slotList == map[] <==> slotList.Keys == {};
  }

  /** Startup on this database has the slots, references and counts that index generation finds. */
  lemma StartupIsGenerated(
    index: IndexGeneration.Index, info: map<Slot, IndexGeneration.SizeAndCount>, files: Files, k: Pubkey)
    requires IndexGeneration.Indexes(index, files, files.Keys) && IndexGeneration.InfoExact(info, files, files.Keys)
    ensures var db := Added(EMPTY, files, {});
      && (k in db.index <==> k in index)
      && (k in index ==> db.index[k].slotList.Keys == index[k] && db.index[k].refCount == |index[k]|)
      && (forall s | s in info :: s in db.storages && db.storages[s].count == info[s].count)
  {
    IndexGeneration.IndexedSlots(index, files, k);
    StartupEntry(files, k);
  }

  /** A restart from storages that read as they should, and keep doing so with the full snapshot. */
  lemma StartupKeeps(state: State, files: Files)
    requires Faithful(files, state.history) && files.Keys <= state.history.Keys && state.full.Keys <= state.history.Keys
    requires state.snapshot.Some? ==> Faithful(Restore(state.full, files, state.snapshot.value), state.history)
    ensures Durable(Restarted(state, files))
  {
    var db := Added(EMPTY, files, {});
    StartupReads(files);
    assert db.storages.Keys == FilesOf(db.storages).Keys;
  }

  lemma RestoreTwice(full: Files, files: Files, slot: Slot)
    ensures Restore(full, Restore(full, files, slot), slot) == Restore(full, files, slot)
    ensures Restore(full, files, slot).Keys <= full.Keys + files.Keys
  {
  }

  lemma RestoredIsFaithful(full: Files, files: Files, slot: Slot, history: Files)
    requires Faithful(Restore(full, files, slot), history)
    requires files.Keys <= history.Keys && full.Keys <= history.Keys
    ensures Restore(full, files, slot).Keys <= history.Keys
    ensures Faithful(Restore(full, Restore(full, files, slot), slot), history)
  {
    RestoreTwice(full, files, slot);
  }

  lemma RestartKeeps(state: State)
    requires Durable(state)
    ensures Durable(Apply(state, Restart))
  {
    var files := FilesOf(state.db.storages);
    assert files.Keys == state.db.storages.Keys;
    StartupKeeps(state, files);
  }

  lemma RestartFromSnapshotKeeps(state: State)
    requires Durable(state) && state.snapshot.Some?
    ensures Durable(Apply(state, RestartFromSnapshot))
  {
    var files, slot := FilesOf(state.db.storages), state.snapshot.value;
    assert files.Keys == state.db.storages.Keys;
    RestoredIsFaithful(state.full, files, slot, state.history);
    StartupKeeps(state, Restore(state.full, files, slot));
  }

  lemma PurgeKeeps(state: State, s: Slot)
    requires Inv(state) && s in state.cache
    ensures Durable(Apply(state, Purge(s)))
  {
    var dropped := PlacesOf(state.cache, s);
    forall p: Place | p in dropped ensures !StoredAt(state.db.index, p.1, p.0) {
      assert CachedEntry(state.db.index, p.1, p.0) == CachedInfo(state.cache, p.1, p.0);
    }
    AddedIsConsistent(state.db, map[], dropped);
    assert WithFiles(state.db.storages, map[]) == state.db.storages;
  }

  lemma WriteKeeps(state: State, k: Pubkey, s: Slot, account: Account)
    requires Durable(state) && Above(state, s)
    ensures Durable(Apply(state, Write(k, s, account)))
  {
    assert s !in state.db.storages;
    CacheWriteKeepsConsistent(state.db, k, s, account.IsZeroLamport());
  }

  lemma StepKeepsDurable(state: State, step: Step)
    requires Inv(state) && Enabled(state, step)
    ensures Durable(Apply(state, step))
  {
    match step
    case Write(k, s, account) => WriteKeeps(state, k, s, account);
    case Flush(slots, dropped) => FlushKeeps(state, Only(state.cache, slots), dropped);
    case Purge(s) => PurgeKeeps(state, s);
    case Shrink(s) => ShrinkKeeps(state, s);
    case DoClean(after) => CleanKeeps(state, after);
    case TakeFullSnapshot(slot) => SnapshotKeeps(state, slot);
    case Restart => RestartKeeps(state);
    case RestartFromSnapshot => RestartFromSnapshotKeeps(state);
  }

  // ----- The cache and its index entries -----

  lemma WriteKeepsCache(state: State, k: Pubkey, s: Slot, account: Account)
    requires CacheOk(state) && Above(state, s)
    ensures CacheOk(Apply(state, Write(k, s, account)))
  {
    var state' := Apply(state, Write(k, s, account));
    forall x: Pubkey, t: Slot ensures CachedEntry(state'.db.index, x, t) == CachedInfo(state'.cache, x, t) {
      assert CachedEntry(state.db.index, x, t) == CachedInfo(state.cache, x, t);
    }
  }

  /** Storing or dropping the accounts of cached slots takes their entries out of the cache. */
  lemma AddedKeepsCache(db: Db, cache: Files, files: Files, dropped: set<Place>, slots: set<Slot>)
    requires CacheIndexed(db.index, cache)
    requires forall s: Slot, k: Pubkey | HeldAt(cache, s, k) && s in slots :: HeldAt(files, s, k) || (s, k) in dropped
    requires forall s: Slot, k: Pubkey | HeldAt(files, s, k) || (s, k) in dropped :: s in slots
    ensures CacheIndexed(Added(db, files, dropped).index, cache - slots)
  {
    var index := Added(db, files, dropped).index;
    forall k: Pubkey, s: Slot ensures CachedEntry(index, k, s) == CachedInfo(cache - slots, k, s) {
      AddedEntries(db, files, dropped, k, s);
      assert CachedEntry(db.index, k, s) == CachedInfo(cache, k, s);
    }
  }

  lemma FlushKeepsCache(state: State, slots: set<Slot>, dropped: set<Place>)
    requires CacheOk(state) && Enabled(state, Flush(slots, dropped))
    ensures CacheOk(Apply(state, Flush(slots, dropped)))
  {
    var batch := Only(state.cache, slots);
    forall p: Place | p in dropped ensures p.0 in batch { assert HeldAt(batch, p.0, p.1); }
    AddedKeepsCache(state.db, state.cache, Written(batch, dropped), dropped, batch.Keys);
  }

  lemma PurgeKeepsCache(state: State, s: Slot)
    requires CacheOk(state) && s in state.cache
    ensures CacheOk(Apply(state, Purge(s)))
  {
    AddedKeepsCache(state.db, state.cache, map[], PlacesOf(state.cache, s), {s});
  }

  lemma ShrinkKeepsCache(state: State, s: Slot)
    requires CacheOk(state) && s in state.db.storages
    ensures CacheOk(Apply(state, Shrink(s)))
  {
    if Shrinks(state.db, s, state.snapshot) {
      var state' := Apply(state, Shrink(s));
      forall k: Pubkey, t: Slot ensures CachedEntry(state'.db.index, k, t) == CachedInfo(state'.cache, k, t) {
        ShrunkEntries(state.db, s, state.snapshot, k, t);
        assert CachedEntry(state.db.index, k, t) == CachedInfo(state.cache, k, t);
      }
    }
  }

  lemma CleanKeepsCache(state: State, after: Db)
    requires CacheOk(state) && Enabled(state, DoClean(after))
    ensures CacheOk(Apply(state, DoClean(after)))
  {
    forall k: Pubkey, s: Slot ensures CachedEntry(after.index, k, s) == CachedInfo(state.cache, k, s) {
      assert CachedEntry(state.db.index, k, s) == CachedInfo(state.cache, k, s);
    }
  }

  lemma StartupKeepsCache(state: State, files: Files)
    requires files.Keys <= state.history.Keys
    ensures CacheOk(Restarted(state, files))
  {
    var index := Added(EMPTY, files, {}).index;
    forall k: Pubkey, s: Slot ensures CachedEntry(index, k, s) == CachedInfo(map[], k, s) {
      AddedEntries(EMPTY, files, {}, k, s);
    }
  }

  lemma RestartKeepsCache(state: State, step: Step)
    requires Inv(state) && Enabled(state, step) && (step.Restart? || step.RestartFromSnapshot?)
    ensures CacheOk(Apply(state, step))
  {
    var files := FilesOf(state.db.storages);
    assert files.Keys == state.db.storages.Keys;
    if step.Restart? {
      StartupKeepsCache(state, files);
    } else {
      RestoreTwice(state.full, files, state.snapshot.value);
      StartupKeepsCache(state, Restore(state.full, files, state.snapshot.value));
    }
  }

  lemma StepKeepsCache(state: State, step: Step)
    requires Inv(state) && Enabled(state, step)
    ensures CacheOk(Apply(state, step))
  {
    match step
    case Write(k, s, account) => WriteKeepsCache(state, k, s, account);
    case Flush(slots, dropped) => FlushKeepsCache(state, slots, dropped);
    case Purge(s) => PurgeKeepsCache(state, s);
    case Shrink(s) => ShrinkKeepsCache(state, s);
    case DoClean(after) => CleanKeepsCache(state, after);
    case TakeFullSnapshot(slot) =>
    case Restart => RestartKeepsCache(state, step);
    case RestartFromSnapshot => RestartKeepsCache(state, step);
  }

  // ----- Clean as a step -----

  /** Clean may run in every reachable state: no entry of a root is cached. */
  lemma CleanMayRun(state: State, bound: Option<Slot>)
    requires CacheOk(state)
    ensures CleanPhases.Flushed(state.db, bound)
  {
    forall k, s | Entry(state.db.index, k, s).Some? && s in state.db.roots && WithinBound(s, bound)
      ensures StoredAt(state.db.index, k, s)
    {
      assert CachedEntry(state.db.index, k, s) == CachedInfo(state.cache, k, s);
    }
  }

  /** A clean of the database of a reachable state is a step of the run. */
  method RunClean(ghost state: State, db: Clean.AccountsDb, maxCleanRoot: Option<Slot>)
    requires Inv(state) && db.Valid() && db.Value() == state.db && db.latestFullSnapshotSlot == state.snapshot
    modifies db
    ensures db.Valid() && Enabled(state, DoClean(db.Value())) && Inv(Apply(state, DoClean(db.Value())))
  {
    CleanMayRun(state, MaxCleanRoot(db.minOngoingScanRoot, maxCleanRoot));
    ghost var report := db.CleanAccounts(maxCleanRoot);
    StepKeepsDurable(state, DoClean(db.Value()));
    StepKeepsCache(state, DoClean(db.Value()));
  }

  // ----- Runs -----

  ghost predicate Next(state: State, state': State) {
    exists step :: Enabled(state, step) && state' == Apply(state, step)
  }

  ghost predicate Run(states: seq<State>) {
    && |states| > 0 && states[0] == State(EMPTY, map[], None, map[], map[])
    && forall i | 0 < i < |states| :: Next(states[i - 1], states[i])
  }

  lemma {:induction false} RunKeeps(states: seq<State>, i: nat)
    requires Run(states) && i < |states|
    ensures Inv(states[i])
  {
    if i == 0 {
      EmptyIsConsistent();
    } else {
      RunKeeps(states, i - 1);
      assert Next(states[i - 1], states[i]);
      var step :| Enabled(states[i - 1], step) && states[i] == Apply(states[i - 1], step);
      StepKeepsDurable(states[i - 1], step);
      StepKeepsCache(states[i - 1], step);
    }
  }

  /** In every reachable state the database is consistent, and a restart from the storages, or from the
      latest full snapshot and the storages after it, reads every account as it was last written to a slot
      that was flushed: no old balance comes back, and only what was never flushed is lost. */
  lemma NothingResurrects(states: seq<State>, i: nat, k: Pubkey)
    requires Run(states) && i < |states|
    ensures Consistent(states[i].db)
    ensures Live(FilesOf(states[i].db.storages), k) == Live(states[i].history, k)
    ensures states[i].snapshot.Some? ==>
      Live(Restore(states[i].full, FilesOf(states[i].db.storages), states[i].snapshot.value), k)
      == Live(states[i].history, k)
  {
    RunKeeps(states, i);
  }

  /** While running nothing is lost either: on any fork of cached slots above the flushed ones, cache and
      storages together hold what was last written, and the index says which of it is cached. */
  lemma ForksSeeWrites(states: seq<State>, i: nat, fork: set<Slot>, k: Pubkey)
    requires Run(states) && i < |states|
    requires forall s | s in fork && s in states[i].cache :: Above(states[i], s)
    ensures var cached := Only(states[i].cache, fork);
      && Live(Merged(FilesOf(states[i].db.storages), cached), k) == Live(Merged(states[i].history, cached), k)
      && (forall s | s in cached :: CachedEntry(states[i].db.index, k, s) == CachedInfo(cached, k, s))
  {
    RunKeeps(states, i);
    var state := states[i];
    var cached := Only(state.cache, fork);
    forall s, t | s in state.history && t in cached ensures s < t { assert Above(state, t); }
    assert Live(FilesOf(state.db.storages), k) == Live(state.history, k);
    UpperDecides(FilesOf(state.db.storages), cached, k);
    UpperDecides(state.history, cached, k);
    forall s | s in cached ensures CachedEntry(state.db.index, k, s) == CachedInfo(cached, k, s) {
      assert CachedEntry(state.db.index, k, s) == CachedInfo(state.cache, k, s);
    }
  }

  // ----- The last write -----

  ghost predicate NextBy(state: State, step: Step, state': State) {
    Enabled(state, step) && state' == Apply(state, step)
  }

  /** A run and the steps it takes. */
  ghost predicate RunBy(states: seq<State>, steps: seq<Step>) {
    && |states| == |steps| + 1 && states[0] == State(EMPTY, map[], None, map[], map[])
    && forall i | 0 <= i < |steps| :: StepAt(states, steps, i)
  }

  ghost predicate StepAt(states: seq<State>, steps: seq<Step>, i: nat)
    requires i < |steps| < |states|
  {
    NextBy(states[i], steps[i], states[i + 1])
  }

  lemma {:induction false} RunByKeeps(states: seq<State>, steps: seq<Step>, i: nat)
    requires RunBy(states, steps) && i <= |steps|
    ensures Inv(states[i])
  {
    forall n | 0 < n < |states| ensures Next(states[n - 1], states[n]) {
      assert StepAt(states, steps, n - 1);
    }
    RunKeeps(states, i);
  }

  /** The account is what the cache or, once the slot has been flushed, the history holds for the key. */
  ghost predicate LastWritten(state: State, k: Pubkey, s: Slot, account: Account) {
    if s in state.history then k in state.history[s] && state.history[s][k] == account
    else s in state.cache && k in state.cache[s] && state.cache[s][k] == account
  }

  /** The step does not write the key in the slot, nor give up the slot: a cached slot is lost when it is
      purged and in a restart. */
  ghost predicate Spares(state: State, step: Step, k: Pubkey, s: Slot) {
    match step
    case Write(j, t, _) => j != k || t != s
    case Purge(t) => t != s
    case Restart => s in state.history
    case RestartFromSnapshot => s in state.history
    case _ => true
  }

  lemma FlushKeepsLastWrite(state: State, slots: set<Slot>, dropped: set<Place>, k: Pubkey, s: Slot, account: Account)
    requires CanFlush(state, Only(state.cache, slots), dropped) && LastWritten(state, k, s, account)
    ensures LastWritten(Flushed(state, Only(state.cache, slots), dropped), k, s, account)
  {
    if s in Only(state.cache, slots) { assert Above(state, s); }
  }

  lemma WriteKeepsLastWrite(state: State, state': State, k: Pubkey, s: Slot, account: Account, j: Pubkey, t: Slot,
                            other: Account)
    requires LastWritten(state, k, s, account) && (j != k || t != s)
    requires state'.history == state.history && state'.cache == WriteTo(state.cache, j, t, other)
    ensures LastWritten(state', k, s, account)
  {
  }

  lemma OthersKeepLastWrite(state: State, step: Step, k: Pubkey, s: Slot, account: Account)
    requires Enabled(state, step) && !step.Flush? && !step.Write?
    requires Spares(state, step, k, s) && LastWritten(state, k, s, account)
    ensures LastWritten(Apply(state, step), k, s, account)
  {
    var after := Apply(state, step);
    assert after.history == state.history;
    assert s in state.history || (s in after.cache && after.cache[s] == state.cache[s]);
  }

  lemma StepKeepsLastWrite(state: State, step: Step, state': State, k: Pubkey, s: Slot, account: Account)
    requires NextBy(state, step, state') && Spares(state, step, k, s) && LastWritten(state, k, s, account)
    ensures LastWritten(state', k, s, account)
  {
    if step.Flush? {
      FlushKeepsLastWrite(state, step.slots, step.dropped, k, s, account);
    } else if step.Write? {
      WriteKeepsLastWrite(state, state', k, s, account, step.k, step.s, step.account);
    } else {
      OthersKeepLastWrite(state, step, k, s, account);
    }
  }

  lemma WriteIsLast(state: State, state': State, k: Pubkey, s: Slot, account: Account)
    requires NextBy(state, Write(k, s, account), state')
    ensures LastWritten(state', k, s, account)
  {
    assert Above(state, s);
  }

  /** The `n`-th step of the run spares the write. */
  ghost predicate SparedAt(states: seq<State>, steps: seq<Step>, n: nat, k: Pubkey, s: Slot)
    requires n < |steps| < |states|
  {
    Spares(states[n], steps[n], k, s)
  }

  lemma SparedStays(states: seq<State>, steps: seq<Step>, n: nat, k: Pubkey, s: Slot, account: Account)
    requires n < |steps| < |states| && StepAt(states, steps, n) && SparedAt(states, steps, n, k, s)
    requires LastWritten(states[n], k, s, account)
    ensures LastWritten(states[n + 1], k, s, account)
  {
    StepKeepsLastWrite(states[n], steps[n], states[n + 1], k, s, account);
  }

  lemma WrittenAt(states: seq<State>, steps: seq<Step>, n: nat, k: Pubkey, s: Slot, account: Account)
    requires n < |steps| < |states| && StepAt(states, steps, n) && steps[n] == Write(k, s, account)
    ensures LastWritten(states[n + 1], k, s, account)
  {
    WriteIsLast(states[n], states[n + 1], k, s, account);
  }

  /** What was written stays, first in the cache and then in the history of its slot, until it is
      overwritten in that slot or the slot is given up before it was flushed. */
  lemma {:induction false} LastWriteStays(
    states: seq<State>, steps: seq<Step>, i: nat, j: nat, k: Pubkey, s: Slot, account: Account)
    requires RunBy(states, steps) && i < j <= |steps| && steps[i] == Write(k, s, account)
    requires forall n | i < n < j :: SparedAt(states, steps, n, k, s)
    ensures LastWritten(states[j], k, s, account)
    decreases j
  {
    if j - 1 == i {
      WrittenAt(states, steps, i, k, s, account);
    } else {
      LastWriteStays(states, steps, i, j - 1, k, s, account);
      SparedStays(states, steps, j - 1, k, s, account);
    }
  }

  /** After any run, if the slot of a write has been flushed and no later flushed slot holds the key, a
      restart from the storages, or from the latest full snapshot and the later storages, reads the account
      as it was written, or nothing if that had no lamports. */
  lemma RestartReadsLastWrite(
    states: seq<State>, steps: seq<Step>, i: nat, j: nat, k: Pubkey, s: Slot, account: Account)
    requires RunBy(states, steps) && i < j <= |steps| && steps[i] == Write(k, s, account)
    requires forall n | i < n < j :: SparedAt(states, steps, n, k, s)
    requires s in states[j].history && forall t | t in states[j].history && k in states[j].history[t] :: t <= s
    ensures var read, files := if account.lamports == 0 then None else Some(account), FilesOf(states[j].db.storages);
      && Live(files, k) == read
      && (states[j].snapshot.Some? ==> Live(Restore(states[j].full, files, states[j].snapshot.value), k) == read)
  {
    LastWriteStays(states, steps, i, j, k, s, account);
    RunByKeeps(states, steps, j);
    var history := states[j].history;
    assert s in Holders(history, k);
    assert MaxOf(Holders(history, k)) in history;
    assert Live(history, k) == if account.lamports == 0 then None else Some(account);
  }
}
