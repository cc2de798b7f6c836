/** The database as clean sees it, as a value: the accounts index, one storage per slot
    and the roots.  This module states what reclaiming entries does to it and why that
    keeps the database consistent and what a restart would read. */
module CleanModel {
  import opened Types
  import opened Rebuild
  import opened DeleteDependencies

  /** A storage file and the number of its accounts that the index still refers to. */
  datatype Storage = Storage(accounts: map<Pubkey, Account>, count: nat)

  datatype IndexEntry = IndexEntry(slotList: map<Slot, AccountInfo>, refCount: nat)

  type Index = map<Pubkey, IndexEntry>

  /** A storage location is given by its slot and key: a storage holds a key at one offset. */
  type Place = (Slot, Pubkey)

  datatype Db = Db(index: Index, storages: map<Slot, Storage>, roots: set<Slot>, maxRoot: Slot)

  function FilesOf(storages: map<Slot, Storage>): Files {
    map s | s in storages :: storages[s].accounts
  }

  /** The slots whose storage holds `k`. */
  ghost function Stores(storages: map<Slot, Storage>, k: Pubkey): set<Slot> {
    set s | s in storages && k in storages[s].accounts
  }

  lemma StoresAreHolders(storages: map<Slot, Storage>, k: Pubkey)
    ensures Stores(storages, k) == Holders(FilesOf(storages), k)
  {
  }

  /** The index entry of key `k` for slot `s`. */
  function Entry(index: Index, k: Pubkey, s: Slot): Option<AccountInfo> {
    if k in index && s in index[k].slotList then Some(index[k].slotList[s]) else None
  }

  /** The index has an entry for `k` at `s` that refers to a storage. */
  predicate StoredAt(index: Index, k: Pubkey, s: Slot) {
    Entry(index, k, s).Some? && !Entry(index, k, s).value.isCached
  }

  /** The keys whose account in slot `s` is alive. */
  ghost function AliveAt(index: Index, s: Slot): set<Pubkey> {
    set k | k in index && StoredAt(index, k, s)
  }

  /** An index entry that refers to a storage finds the account there. */
  ghost predicate EntriesResolve(db: Db) {
    forall k, s | StoredAt(db.index, k, s) ::
      && s in db.storages && k in db.storages[s].accounts
      && (Entry(db.index, k, s).value.isZeroLamport <==> db.storages[s].accounts[k].IsZeroLamport())
  }

  ghost predicate RefCountsExact(db: Db) {
    forall k | k in db.index :: db.index[k].refCount == |Stores(db.storages, k)|
  }

  ghost predicate RootsBounded(db: Db) {
    db.storages.Keys <= db.roots && forall r | r in db.roots :: r <= db.maxRoot
  }

  ghost predicate SlotListsNonEmpty(db: Db) {
    forall k | k in db.index :: db.index[k].slotList != map[]
  }

  /** A storage's count is the number of its alive accounts. */
  ghost predicate CountsExact(db: Db) {
    forall s | s in db.storages :: db.storages[s].count == |AliveAt(db.index, s)|
  }

  /** Every stored key is in the index, with its newest stored version alive. */
  ghost predicate NewestAlive(db: Db) {
    forall s, k {:trigger NewerAlive(db.index, k, s)} | s in db.storages && k in db.storages[s].accounts ::
      k in db.index && NewerAlive(db.index, k, s)
  }

  /** The invariant that cached writes, flushes, shrinks, cleans and restarts keep. */
  ghost predicate Consistent(db: Db) {
    && RootsBounded(db)
    && EntriesResolve(db)
    && RefCountsExact(db)
    && SlotListsNonEmpty(db)
    && CountsExact(db)
    && NewestAlive(db)
  }

  /** A version in slot `s` or later is alive, so the newest stored version always is. */
  ghost predicate NewerAlive(index: Index, k: Pubkey, s: Slot) {
    exists t :: s <= t && StoredAt(index, k, t)
  }

  /** The places in `removed` left the index, and with them the keys that have no entry left. */
  ghost predicate EntriesRemoved(db: Db, removed: set<Place>, after: Db) {
    && after == db.(index := after.index)
    && (forall k | k in after.index :: k in db.index && after.index[k].refCount == db.index[k].refCount)
    && SlotListsNonEmpty(after)
    && (forall k: Pubkey, s: Slot :: Entry(after.index, k, s) ==
          if (s, k) in removed then None else Entry(db.index, k, s))
  }

  lemma EntriesRemovedTwice(db: Db, first: set<Place>, mid: Db, second: set<Place>, after: Db)
    requires EntriesRemoved(db, first, mid) && EntriesRemoved(mid, second, after)
    ensures EntriesRemoved(db, first + second, after)
  {
  }

  // ----- Reclaiming places that have been removed from the index -----

  function KeysAt(reclaims: set<Place>, s: Slot): set<Pubkey> {
    set p | p in reclaims && p.0 == s :: p.1
  }

  /** When the places to reclaim are exactly the stored entries that left the index, each
      slot's alive accounts split into those that stay and those to reclaim. */
  lemma AliveSplits(before: Index, after: Index, reclaims: set<Place>, s: Slot)
    requires forall k: Pubkey ::
      StoredAt(before, k, s) <==> StoredAt(after, k, s) || (s, k) in reclaims
    requires forall k: Pubkey :: !(StoredAt(after, k, s) && (s, k) in reclaims)
    ensures |AliveAt(before, s)| == |AliveAt(after, s)| + |KeysAt(reclaims, s)|
  {
    var gone := KeysAt(reclaims, s);
    assert forall k: Pubkey :: k in gone <==> (s, k) in reclaims by {
      forall k: Pubkey | (s, k) in reclaims ensures k in gone { assert (s, k).1 == k; }
    }
    assert AliveAt(before, s) == AliveAt(after, s) + gone;
    assert AliveAt(after, s) !! gone;
  }

  /** The slots that lose their last alive account. */
  function DeadSlots(db: Db, reclaims: set<Place>): set<Slot> {
    set s | s in db.storages && KeysAt(reclaims, s) != {}
            && |KeysAt(reclaims, s)| == db.storages[s].count
  }

  ghost predicate AllHoldersDead(db: Db, reclaims: set<Place>, k: Pubkey) {
    Stores(db.storages, k) <= DeadSlots(db, reclaims)
  }

  /** The state between removing index entries and reclaiming their places: counts are
      still too high by the places to reclaim, and the newest version of a key may be gone
      from the index if all storages that hold it are about to die. */
  ghost predicate Reclaimable(db: Db, reclaims: set<Place>) {
    && RootsBounded(db)
    && EntriesResolve(db)
    && RefCountsExact(db)
    && SlotListsNonEmpty(db)
    && CountsCoverReclaims(db, reclaims)
    && NewestAliveOrDying(db, reclaims)
  }

  ghost predicate CountsCoverReclaims(db: Db, reclaims: set<Place>) {
    forall s | s in db.storages ::
      db.storages[s].count == |AliveAt(db.index, s)| + |KeysAt(reclaims, s)|
  }

  ghost predicate NewestAliveOrDying(db: Db, reclaims: set<Place>) {
    forall s, k {:trigger NewerAlive(db.index, k, s)} | s in db.storages && k in db.storages[s].accounts ::
      (k in db.index && NewerAlive(db.index, k, s)) || AllHoldersDead(db, reclaims, k)
  }

  /** `handle_reclaims`: lower the counts, remove the storages and roots of dead slots and
      drop one reference per account that a removed storage held. */
  ghost predicate ReclaimedTo(db: Db, reclaims: set<Place>, after: Db) {
    var dead := DeadSlots(db, reclaims);
    && after.maxRoot == db.maxRoot && after.roots == db.roots - dead
    && after.storages.Keys == db.storages.Keys - dead
    && (forall s | s in after.storages ::
          && after.storages[s].accounts == db.storages[s].accounts
          && after.storages[s].count + |KeysAt(reclaims, s)| == db.storages[s].count)
    && after.index.Keys == db.index.Keys
    && (forall k | k in db.index ::
          && after.index[k].slotList == db.index[k].slotList
          && after.index[k].refCount == |Stores(db.storages, k) - dead|)
  }

  /** A slot with an alive account does not die. */
  lemma AliveSlotSurvives(db: Db, reclaims: set<Place>, k: Pubkey, s: Slot)
    requires CountsCoverReclaims(db, reclaims) && StoredAt(db.index, k, s) && s in db.storages
    ensures s !in DeadSlots(db, reclaims)
  {
    assert k in AliveAt(db.index, s);
  }

  /** Alive entries depend on the slot lists only. */
  lemma SameSlotLists(index: Index, after: Index)
    requires after.Keys == index.Keys
    requires forall k | k in index :: after[k].slotList == index[k].slotList
    ensures forall k: Pubkey, s: Slot :: Entry(after, k, s) == Entry(index, k, s)
    ensures forall s :: AliveAt(after, s) == AliveAt(index, s)
    ensures forall k, s | NewerAlive(index, k, s) :: NewerAlive(after, k, s)
  {
    forall k: Pubkey, s: Slot ensures Entry(after, k, s) == Entry(index, k, s) {}
    forall k, s | NewerAlive(index, k, s) ensures NewerAlive(after, k, s) {
      var t :| s <= t && StoredAt(index, k, t);
      assert StoredAt(after, k, t);
    }
  }

  lemma ReclaimedStores(db: Db, reclaims: set<Place>, after: Db, k: Pubkey)
    requires ReclaimedTo(db, reclaims, after)
    ensures Stores(after.storages, k) == Stores(db.storages, k) - DeadSlots(db, reclaims)
  {
  }

  lemma ReclaimedEntriesResolve(db: Db, reclaims: set<Place>, after: Db)
    requires EntriesResolve(db) && CountsCoverReclaims(db, reclaims) && ReclaimedTo(db, reclaims, after)
    ensures EntriesResolve(after)
  {
    SameSlotLists(db.index, after.index);
    forall k, s | StoredAt(after.index, k, s) ensures s in after.storages {
      AliveSlotSurvives(db, reclaims, k, s);
    }
  }

  lemma ReclaimedRefCounts(db: Db, reclaims: set<Place>, after: Db)
    requires ReclaimedTo(db, reclaims, after)
    ensures RefCountsExact(after)
  {
    forall k | k in after.index ensures after.index[k].refCount == |Stores(after.storages, k)| {
      ReclaimedStores(db, reclaims, after, k);
    }
  }

  lemma ReclaimedNewest(db: Db, reclaims: set<Place>, after: Db, s: Slot, k: Pubkey)
    requires NewestAliveOrDying(db, reclaims) && ReclaimedTo(db, reclaims, after)
    requires s in after.storages && k in after.storages[s].accounts
    ensures k in after.index && NewerAlive(after.index, k, s)
  {
    assert s in Stores(db.storages, k);
    assert !AllHoldersDead(db, reclaims, k);
    assert NewerAlive(db.index, k, s);
    SameSlotLists(db.index, after.index);
  }

  lemma ReclaimKeepsConsistent(db: Db, reclaims: set<Place>, after: Db)
    requires Reclaimable(db, reclaims) && ReclaimedTo(db, reclaims, after)
    ensures Consistent(after)
  {
    ReclaimedRefCounts(db, reclaims, after);
    ReclaimedEntriesResolve(db, reclaims, after);
    forall s, k | s in after.storages && k in after.storages[s].accounts
      ensures k in after.index && NewerAlive(after.index, k, s)
    { ReclaimedNewest(db, reclaims, after, s, k); }
    SameSlotLists(db.index, after.index);
  }

  lemma NewestIsAlive(db: Db, k: Pubkey, newest: Slot)
    requires EntriesResolve(db) && NewerAlive(db.index, k, newest)
    requires forall s | s in Stores(db.storages, k) :: s <= newest
    ensures StoredAt(db.index, k, newest)
  {
    var t :| newest <= t && StoredAt(db.index, k, t);
    assert t in Stores(db.storages, k);
  }

  /** Reclaiming keeps the newest stored version of a key that has an alive version no older. */
  lemma ReclaimKeepsNewest(db: Db, reclaims: set<Place>, after: Db, k: Pubkey)
    requires EntriesResolve(db) && CountsCoverReclaims(db, reclaims) && ReclaimedTo(db, reclaims, after)
    requires Stores(db.storages, k) != {} && NewerAlive(db.index, k, MaxOf(Stores(db.storages, k)))
    ensures MaxOf(Stores(db.storages, k)) in after.storages
  {
    var newest := MaxOf(Stores(db.storages, k));
    NewestIsAlive(db, k, newest);
    AliveSlotSurvives(db, reclaims, k, newest);
  }

  lemma ReclaimPrunes(db: Db, reclaims: set<Place>, after: Db)
    requires ReclaimedTo(db, reclaims, after)
    ensures Prunes(FilesOf(db.storages), FilesOf(after.storages))
  {
  }
}
