/** The two index changes that clean makes before reclaiming, and why each may be reclaimed:
    the scan removes outdated versions, the purge removes whole zero-lamport keys. */
module CleanPhases {
  import opened Types
  import opened Rebuild
  import opened DeleteDependencies
  import opened CleanModel

  type SlotList = map<Slot, AccountInfo>

  // ----- Scanning: outdated versions leave the index -----

  /** `get_rooted_entries` */
  function RootedEntries(slotList: SlotList, roots: set<Slot>, bound: Option<Slot>): SlotList {
    map s | s in slotList && s in roots && WithinBound(s, bound) :: slotList[s]
  }

  /** `get_newest_root_in_slot_list`: the highest rooted slot up to the bound, 0 if there is none. */
  function NewestRoot(slotList: SlotList, roots: set<Slot>, bound: Option<Slot>): Slot {
    var rooted := RootedEntries(slotList, roots, bound).Keys;
    if rooted == {} then 0 else MaxOf(rooted)
  }

  /** `can_purge_older_entries`, for an entry that is not cached. */
  predicate Purgeable(slotList: SlotList, roots: set<Slot>, maxRoot: Slot, bound: Option<Slot>, s: Slot) {
    && s in slotList && !slotList[s].isCached
    && s < (if bound.None? then maxRoot else bound.value)
    && s != NewestRoot(slotList, roots, bound)
  }

  ghost predicate PurgeableIn(db: Db, bound: Option<Slot>, k: Pubkey, s: Slot) {
    k in db.index && Purgeable(db.index[k].slotList, db.roots, db.maxRoot, bound, s)
  }

  /** The write cache has been flushed up to the bound, which clean asserts of its candidates. */
  ghost predicate Flushed(db: Db, bound: Option<Slot>) {
    forall k, s | Entry(db.index, k, s).Some? && s in db.roots && WithinBound(s, bound) ::
      StoredAt(db.index, k, s)
  }

  /** A rooted version of the key, within the bound, is newer than slot `s`. */
  ghost predicate NewerRooted(db: Db, bound: Option<Slot>, k: Pubkey, s: Slot) {
    exists t | t in db.roots :: s < t && (bound.None? || t <= bound.value) && Entry(db.index, k, t).Some?
  }

  /** A stored version is outdated if and only if a newer rooted one is within the bound. */
  lemma OutdatedIff(db: Db, bound: Option<Slot>, k: Pubkey, s: Slot)
    requires RootsBounded(db) && EntriesResolve(db)
    ensures PurgeableIn(db, bound, k, s) <==>
      && StoredAt(db.index, k, s)
      && exists t | t in db.roots :: s < t && (bound.None? || t <= bound.value) && Entry(db.index, k, t).Some?
    ensures PurgeableIn(db, bound, k, s) <==> StoredAt(db.index, k, s) && NewerRooted(db, bound, k, s)
  {
    if StoredAt(db.index, k, s) {
      assert s in db.roots;
      var rooted := RootedEntries(db.index[k].slotList, db.roots, bound).Keys;
      if NewerRooted(db, bound, k, s) {
        var t :| t in db.roots && s < t && (bound.None? || t <= bound.value) && Entry(db.index, k, t).Some?;
        assert t in rooted;
      }
      if PurgeableIn(db, bound, k, s) {
        assert s in rooted;
        assert MaxOf(rooted) in rooted;
      }
    }
  }

  /** The effect of scanning the candidate `keys`; `reclaims` are the places that left the index. */
  ghost predicate ScannedTo(db: Db, keys: set<Pubkey>, bound: Option<Slot>, reclaims: set<Place>, after: Db) {
    && EntriesRemoved(db, reclaims, after)
    && (forall k: Pubkey, s: Slot :: (s, k) in reclaims <==> k in keys && PurgeableIn(db, bound, k, s))
  }

  /** The newest stored version of a key is never outdated. */
  lemma NewestIsNotPurgeable(db: Db, bound: Option<Slot>, k: Pubkey, newest: Slot)
    requires RootsBounded(db) && EntriesResolve(db) && Flushed(db, bound)
    requires StoredAt(db.index, k, newest)
    requires forall s | s in Stores(db.storages, k) :: s <= newest
    ensures !PurgeableIn(db, bound, k, newest)
  {
    var rooted := RootedEntries(db.index[k].slotList, db.roots, bound).Keys;
    if WithinBound(newest, bound) {
      assert newest in rooted;
      assert Entry(db.index, k, MaxOf(rooted)).Some?;
      assert MaxOf(rooted) in Stores(db.storages, k);
    }
  }

  lemma ScanKeepsNewerAlive(db: Db, keys: set<Pubkey>, bound: Option<Slot>, reclaims: set<Place>, after: Db,
                            s: Slot, k: Pubkey)
    requires RootsBounded(db) && EntriesResolve(db) && NewestAlive(db) && Flushed(db, bound)
    requires ScannedTo(db, keys, bound, reclaims, after)
    requires s in db.storages && k in db.storages[s].accounts
    ensures k in after.index && NewerAlive(after.index, k, s)
  {
    assert s in Stores(db.storages, k);
    var newest := MaxOf(Stores(db.storages, k));
    NewestIsAlive(db, k, newest);
    NewestIsNotPurgeable(db, bound, k, newest);
    assert StoredAt(after.index, k, newest);
  }

  lemma ScanIsReclaimable(db: Db, keys: set<Pubkey>, bound: Option<Slot>, reclaims: set<Place>, after: Db)
    requires Consistent(db) && Flushed(db, bound) && ScannedTo(db, keys, bound, reclaims, after)
    ensures Reclaimable(after, reclaims)
  {
    assert NewestAliveOrDying(after, reclaims) by {
      forall s, k | s in after.storages && k in after.storages[s].accounts
        ensures k in after.index && NewerAlive(after.index, k, s)
      { ScanKeepsNewerAlive(db, keys, bound, reclaims, after, s, k); }
    }
    assert CountsCoverReclaims(after, reclaims) by {
      forall s | s in after.storages
        ensures after.storages[s].count == |AliveAt(after.index, s)| + |KeysAt(reclaims, s)|
      { AliveSplits(db.index, after.index, reclaims, s); }
    }
    assert EntriesResolve(after) by {
      forall k, s | StoredAt(after.index, k, s) ensures StoredAt(db.index, k, s) {}
    }
  }

  /** Reclaiming what a scan removed keeps the newest version of every key. */
  lemma ScanReclaimKeepsNewest(db: Db, keys: set<Pubkey>, bound: Option<Slot>, reclaims: set<Place>,
                               scanned: Db, after: Db, k: Pubkey)
    requires Consistent(db) && Flushed(db, bound) && ScannedTo(db, keys, bound, reclaims, scanned)
    requires Reclaimable(scanned, reclaims) && ReclaimedTo(scanned, reclaims, after)
    requires Stores(db.storages, k) != {}
    ensures MaxOf(Stores(db.storages, k)) in after.storages
  {
    var newest := MaxOf(Stores(db.storages, k));
    ScanKeepsNewerAlive(db, keys, bound, reclaims, scanned, newest, k);
    ReclaimKeepsNewest(scanned, reclaims, after, k);
  }

  // ----- Purging: zero-lamport keys leave the index completely -----

  /** What clean knows of its candidates after the scan has been reclaimed: each has exactly one
      entry left, a stored zero-lamport one, and its reference count is current. */
  ghost predicate Matches(db: Db, candidates: Candidates, bound: Option<Slot>) {
    && (forall k | k in candidates ::
          && k in db.index && candidates[k].refCount == db.index[k].refCount
          && candidates[k].slotList != map[])
    && (forall k, s, t | HasEntry(candidates, k, s) && HasEntry(candidates, k, t) :: s == t)
    && (forall k, s | HasEntry(candidates, k, s) ::
          && StoredAt(db.index, k, s) && Entry(db.index, k, s) == Some(candidates[k].slotList[s])
          && candidates[k].slotList[s].isZeroLamport && WithinBound(s, bound))
  }

  /** Every storage that holds a purged key holds no alive account of another key, and a purged
      key is stored nowhere else. */
  ghost predicate PurgeSafe(db: Db, purged: Candidates) {
    forall k, s | HasEntry(purged, k, s) ::
      && Stores(db.storages, k) <= {s}
      && forall j | StoredAt(db.index, j, s) :: HasEntry(purged, j, s)
  }

  /** `purge_keys_exact`: the entries of the purged keys leave the index. */
  ghost predicate PurgedTo(db: Db, purged: Candidates, reclaims: set<Place>, after: Db) {
    && EntriesRemoved(db, reclaims, after)
    && (forall k: Pubkey, s: Slot :: (s, k) in reclaims <==>
          HasEntry(purged, k, s) && Entry(db.index, k, s).Some?)
  }

  /** A storage that holds a purged key is the one its only index entry refers to. */
  lemma SoleStore(db: Db, purged: Candidates, bound: Option<Slot>, k: Pubkey, s: Slot)
    requires Matches(db, purged, bound) && PurgeSafe(db, purged)
    requires k in purged && s in Stores(db.storages, k)
    ensures HasEntry(purged, k, s)
  {
    var t :| t in purged[k].slotList;
    assert HasEntry(purged, k, t);
  }

  lemma PurgedStoreDies(db: Db, purged: Candidates, bound: Option<Slot>, reclaims: set<Place>, after: Db, k: Pubkey)
    requires CountsExact(db) && Matches(db, purged, bound) && PurgeSafe(db, purged)
    requires PurgedTo(db, purged, reclaims, after)
    requires k in purged
    ensures AllHoldersDead(after, reclaims, k)
  {
    forall s | s in Stores(db.storages, k) ensures s in DeadSlots(after, reclaims) {
      SoleStore(db, purged, bound, k, s);
      AliveSplits(db.index, after.index, reclaims, s);
      assert forall j | j in AliveAt(after.index, s) :: StoredAt(db.index, j, s);
      assert AliveAt(after.index, s) == {};
      assert (s, k) in reclaims && (s, k).1 in KeysAt(reclaims, s);
    }
  }

  lemma UnpurgedStaysAlive(db: Db, purged: Candidates, reclaims: set<Place>, after: Db, s: Slot, k: Pubkey)
    requires PurgedTo(db, purged, reclaims, after) && k !in purged && NewerAlive(db.index, k, s)
    ensures k in after.index && NewerAlive(after.index, k, s)
  {
    var t :| s <= t && StoredAt(db.index, k, t);
    assert StoredAt(after.index, k, t);
  }

  lemma PurgeIsReclaimable(db: Db, purged: Candidates, bound: Option<Slot>, reclaims: set<Place>, after: Db)
    requires Consistent(db) && Matches(db, purged, bound) && PurgeSafe(db, purged)
    requires PurgedTo(db, purged, reclaims, after)
    ensures Reclaimable(after, reclaims)
  {
    assert NewestAliveOrDying(after, reclaims) by {
      forall s, k | s in after.storages && k in after.storages[s].accounts
        ensures (k in after.index && NewerAlive(after.index, k, s)) || AllHoldersDead(after, reclaims, k)
      {
        if k in purged {
          PurgedStoreDies(db, purged, bound, reclaims, after, k);
        } else {
          UnpurgedStaysAlive(db, purged, reclaims, after, s, k);
        }
      }
    }
    assert CountsCoverReclaims(after, reclaims) by {
      forall s | s in after.storages
        ensures after.storages[s].count == |AliveAt(after.index, s)| + |KeysAt(reclaims, s)|
      { AliveSplits(db.index, after.index, reclaims, s); }
    }
    assert EntriesResolve(after) by {
      forall k, s | StoredAt(after.index, k, s) ensures StoredAt(db.index, k, s) {}
    }
  }

  /** Reclaiming a safe purge keeps the newest version of every other key; of a purged key,
      which had zero lamports, no version is left. */
  lemma PurgeReclaimKeepsNewest(db: Db, purged: Candidates, bound: Option<Slot>, reclaims: set<Place>,
                                purgedDb: Db, after: Db, k: Pubkey)
    requires Consistent(db) && Matches(db, purged, bound) && PurgeSafe(db, purged)
    requires PurgedTo(db, purged, reclaims, purgedDb)
    requires Reclaimable(purgedDb, reclaims) && ReclaimedTo(purgedDb, reclaims, after)
    requires Stores(db.storages, k) != {}
    ensures
      var newest := MaxOf(Stores(db.storages, k));
      if k in purged
      then HasEntry(purged, k, newest) && db.storages[newest].accounts[k].IsZeroLamport()
           && Stores(after.storages, k) == {}
      else newest in after.storages
  {
    var newest := MaxOf(Stores(db.storages, k));
    if k in purged {
      PurgedStoreDies(db, purged, bound, reclaims, purgedDb, k);
      ReclaimedStores(purgedDb, reclaims, after, k);
      SoleStore(db, purged, bound, k, newest);
    } else {
      UnpurgedStaysAlive(db, purged, reclaims, purgedDb, newest, k);
      ReclaimKeepsNewest(purgedDb, reclaims, after, k);
    }
  }

  // ----- From store counts to a safe purge -----

  /** The table of the store-count phase: what each store's count is if all candidates go. */
  ghost predicate StoreCountsFor(db: Db, candidates: Candidates, storeCounts: StoreCounts) {
    && Linked(candidates, storeCounts)
    && (forall k, s | HasEntry(candidates, k, s) :: s in storeCounts)
    && (forall s | s in storeCounts ::
          s in db.storages && storeCounts[s].count + |storeCounts[s].keys| == db.storages[s].count)
  }

  /** All stores of the candidate are being deleted. */
  predicate Passes(info: CleaningInfo, remaining: StoreCounts) {
    forall s | s in info.slotList :: s in remaining && remaining[s].count == 0
  }

  /** Whether zero-lamport keys newer than the latest full snapshot have to stay. */
  predicate ShouldFilter(bound: Option<Slot>, fullSnapshot: Option<Slot>) {
    fullSnapshot.Some? && (bound.None? || bound.value > fullSnapshot.value)
  }

  /** The candidate's newest slot is not covered by the latest full snapshot. */
  predicate CannotPurge(info: CleaningInfo, bound: Option<Slot>, fullSnapshot: Option<Slot>)
    requires info.slotList != map[]
  {
    ShouldFilter(bound, fullSnapshot) && MaxOf(info.slotList.Keys) > fullSnapshot.value
  }

  /** The candidates that are left after the filter. */
  ghost predicate Filtered(candidates: Candidates, remaining: StoreCounts, bound: Option<Slot>,
                           fullSnapshot: Option<Slot>, purged: Candidates)
    requires forall k | k in candidates :: candidates[k].slotList != map[]
  {
    && (forall k :: k in purged <==>
          k in candidates && Passes(candidates[k], remaining) && !CannotPurge(candidates[k], bound, fullSnapshot))
    && (forall k | k in purged :: purged[k] == candidates[k])
  }

  /** A store whose count goes to zero holds no alive account except candidates. */
  lemma ZeroCountStore(
    db: Db, candidates: Candidates, bound: Option<Slot>, storeCounts: StoreCounts, s: Slot, j: Pubkey)
    requires CountsExact(db) && Matches(db, candidates, bound) && StoreCountsFor(db, candidates, storeCounts)
    requires s in storeCounts && storeCounts[s].count == 0
    requires StoredAt(db.index, j, s)
    ensures HasEntry(candidates, j, s)
  {
    var keys, alive := storeCounts[s].keys, AliveAt(db.index, s);
    assert keys <= alive by {
      forall k | k in keys ensures k in alive { assert HasEntry(candidates, k, s); }
    }
    EqualByCardinality(keys, alive);
    assert j in alive;
  }

  lemma EqualByCardinality<T>(a: set<T>, b: set<T>)
    requires a <= b && |a| == |b|
    ensures a == b
  {
    assert b == a + (b - a);
    assert |b - a| == 0;
  }

  lemma OneStoreOnly(db: Db, candidates: Candidates, bound: Option<Slot>, storeCounts: StoreCounts, k: Pubkey, s: Slot)
    requires EntriesResolve(db) && RefCountsExact(db) && Matches(db, candidates, bound)
    requires HasEntry(candidates, k, s) && !Kept(candidates, storeCounts, s)
    ensures Stores(db.storages, k) <= {s}
  {
    if Obstacle(candidates, storeCounts, s) { ObstacleIsKept(candidates, storeCounts, s); }
    assert |candidates[k].slotList| == candidates[k].refCount;
    assert candidates[k].slotList.Keys == {s} by {
      forall t | t in candidates[k].slotList ensures t == s { assert HasEntry(candidates, k, t); }
    }
    assert s in Stores(db.storages, k);
    assert |candidates[k].slotList.Keys| == 1;
    EqualByCardinality({s}, Stores(db.storages, k));
  }

  /** Which keys the filter lets through makes a safe purge: all alive accounts of their
      stores go together. */
  lemma FilterIsPurgeSafe(db: Db, candidates: Candidates, bound: Option<Slot>, fullSnapshot: Option<Slot>,
                          storeCounts: StoreCounts, remaining: StoreCounts, purged: Candidates)
    requires Consistent(db) && Matches(db, candidates, bound) && StoreCountsFor(db, candidates, storeCounts)
    requires forall s | s in remaining ::
      s in storeCounts && remaining[s] == storeCounts[s] && !Kept(candidates, storeCounts, s)
    requires Filtered(candidates, remaining, bound, fullSnapshot, purged)
    ensures PurgeSafe(db, purged) && Matches(db, purged, bound)
  {
    forall k, s | HasEntry(purged, k, s)
      ensures Stores(db.storages, k) <= {s}
      ensures forall j | StoredAt(db.index, j, s) :: HasEntry(purged, j, s)
    {
      assert HasEntry(candidates, k, s);
      assert s in remaining && remaining[s].count == 0;
      OneStoreOnly(db, candidates, bound, storeCounts, k, s);
      forall j | StoredAt(db.index, j, s) ensures HasEntry(purged, j, s) {
        ZeroCountStore(db, candidates, bound, storeCounts, s, j);
        SameVerdict(candidates, remaining, bound, fullSnapshot, k, j, s, db);
      }
    }
    assert Matches(db, purged, bound) by {
      forall k, s | HasEntry(purged, k, s) ensures HasEntry(candidates, k, s) && purged[k] == candidates[k] {}
    }
  }

  /** The filter treats two candidates whose only entry is in the same slot alike. */
  lemma SameVerdict(candidates: Candidates, remaining: StoreCounts, bound: Option<Slot>, fullSnapshot: Option<Slot>,
                    k: Pubkey, j: Pubkey, s: Slot, db: Db)
    requires Matches(db, candidates, bound)
    requires HasEntry(candidates, k, s) && HasEntry(candidates, j, s)
    ensures candidates[k].slotList.Keys == candidates[j].slotList.Keys
    ensures Passes(candidates[k], remaining) <==> Passes(candidates[j], remaining)
    ensures CannotPurge(candidates[k], bound, fullSnapshot) <==> CannotPurge(candidates[j], bound, fullSnapshot)
  {
    assert candidates[k].slotList.Keys == {s} by {
      forall t | t in candidates[k].slotList ensures t == s { assert HasEntry(candidates, k, t); }
    }
    assert candidates[j].slotList.Keys == {s} by {
      forall t | t in candidates[j].slotList ensures t == s { assert HasEntry(candidates, j, t); }
    }
  }

  ghost predicate AllLeave(db: Db, candidates: Candidates, s: Slot) {
    forall j | StoredAt(db.index, j, s) :: HasEntry(candidates, j, s) && db.index[j].refCount == 1
  }

  /** In database terms: every alive account in the key's only slot is a candidate that is stored
      nowhere else, and the latest full snapshot, if there is one, has reached the slot. */
  ghost predicate Erasable(db: Db, candidates: Candidates, fullSnapshot: Option<Slot>, k: Pubkey) {
    forall s: Slot | HasEntry(candidates, k, s) ::
      AllLeave(db, candidates, s) && (fullSnapshot.None? || s <= fullSnapshot.value)
  }

  /** Exactly the erasable candidates are purged. */
  ghost predicate ErasesExactly(
    db: Db, candidates: Candidates, fullSnapshot: Option<Slot>, purged: Candidates)
  {
    forall k :: k in purged <==> k in candidates && Erasable(db, candidates, fullSnapshot, k)
  }

  /** With one entry per candidate a connected component is a single slot. */
  lemma KeptIsObstacle(db: Db, candidates: Candidates, bound: Option<Slot>, storeCounts: StoreCounts, s: Slot)
    requires Matches(db, candidates, bound) && Kept(candidates, storeCounts, s)
    ensures Obstacle(candidates, storeCounts, s)
  {
    var walk :| IsWalk(candidates, walk) && walk[0] == s
                && Obstacle(candidates, storeCounts, walk[|walk| - 1]);
    WalkStays(db, candidates, bound, walk, |walk| - 1);
  }

  lemma {:induction false} WalkStays(db: Db, candidates: Candidates, bound: Option<Slot>, walk: seq<Slot>, i: nat)
    requires Matches(db, candidates, bound) && IsWalk(candidates, walk) && i < |walk|
    ensures walk[i] == walk[0]
  {
    if i > 0 {
      WalkStays(db, candidates, bound, walk, i - 1);
      assert Adjacent(candidates, walk[i - 1], walk[i]);
      var k :| k in candidates && walk[i - 1] in candidates[k].slotList && walk[i] in candidates[k].slotList;
      assert HasEntry(candidates, k, walk[i - 1]) && HasEntry(candidates, k, walk[i]);
    }
  }

  lemma OneSlotList(db: Db, candidates: Candidates, bound: Option<Slot>, k: Pubkey, s: Slot)
    requires Matches(db, candidates, bound) && HasEntry(candidates, k, s)
    ensures candidates[k].slotList.Keys == {s} && |candidates[k].slotList| == 1
  {
    assert candidates[k].slotList.Keys == {s} by {
      forall t | t in candidates[k].slotList ensures t == s { assert HasEntry(candidates, k, t); }
    }
    assert |candidates[k].slotList.Keys| == 1;
  }

  lemma ClearSlot(db: Db, candidates: Candidates, bound: Option<Slot>, storeCounts: StoreCounts, s: Slot)
    requires EntriesResolve(db) && CountsExact(db) && Matches(db, candidates, bound)
    requires StoreCountsFor(db, candidates, storeCounts)
    requires s in storeCounts && AllLeave(db, candidates, s)
    ensures !Obstacle(candidates, storeCounts, s)
  {
    assert AliveAt(db.index, s) == storeCounts[s].keys by {
      forall j | j in storeCounts[s].keys ensures StoredAt(db.index, j, s) { assert HasEntry(candidates, j, s); }
    }
    forall j | HasEntry(candidates, j, s) ensures |candidates[j].slotList| == candidates[j].refCount {
      OneSlotList(db, candidates, bound, j, s);
    }
  }

  lemma UnobstructedSlot(db: Db, candidates: Candidates, bound: Option<Slot>, storeCounts: StoreCounts, s: Slot)
    requires CountsExact(db) && Matches(db, candidates, bound) && StoreCountsFor(db, candidates, storeCounts)
    requires s in storeCounts && !Obstacle(candidates, storeCounts, s)
    ensures AllLeave(db, candidates, s)
  {
    forall j | StoredAt(db.index, j, s) ensures HasEntry(candidates, j, s) && db.index[j].refCount == 1 {
      ZeroCountStore(db, candidates, bound, storeCounts, s, j);
      OneSlotList(db, candidates, bound, j, s);
    }
  }

  /** A store survives the worklist's table exactly if all its alive accounts leave. */
  lemma RemainsIffAllLeave(db: Db, candidates: Candidates, bound: Option<Slot>, storeCounts: StoreCounts, s: Slot)
    requires Consistent(db) && Matches(db, candidates, bound) && StoreCountsFor(db, candidates, storeCounts)
    requires s in storeCounts
    ensures !Kept(candidates, storeCounts, s) <==> AllLeave(db, candidates, s)
    ensures !Kept(candidates, storeCounts, s) ==> storeCounts[s].count == 0
  {
    if Obstacle(candidates, storeCounts, s) {
      ObstacleIsKept(candidates, storeCounts, s);
      if AllLeave(db, candidates, s) { ClearSlot(db, candidates, bound, storeCounts, s); assert false; }
    } else {
      UnobstructedSlot(db, candidates, bound, storeCounts, s);
      if Kept(candidates, storeCounts, s) { KeptIsObstacle(db, candidates, bound, storeCounts, s); assert false; }
    }
  }

  /** The keys that pass the worklist and the filter are exactly the erasable ones. */
  lemma PurgedIffErasable(db: Db, candidates: Candidates, bound: Option<Slot>, fullSnapshot: Option<Slot>,
                          storeCounts: StoreCounts, remaining: StoreCounts, purged: Candidates, k: Pubkey)
    requires Consistent(db) && Matches(db, candidates, bound) && StoreCountsFor(db, candidates, storeCounts)
    requires forall s :: s in remaining <==> s in storeCounts && !Kept(candidates, storeCounts, s)
    requires forall s | s in remaining :: remaining[s] == storeCounts[s]
    requires Filtered(candidates, remaining, bound, fullSnapshot, purged) && k in candidates
    ensures k in purged <==> Erasable(db, candidates, fullSnapshot, k)
  {
    var s :| s in candidates[k].slotList;
    assert HasEntry(candidates, k, s);
    OneSlotList(db, candidates, bound, k, s);
    RemainsIffAllLeave(db, candidates, bound, storeCounts, s);
    OneSlotVerdict(db, candidates, bound, fullSnapshot, remaining, k, s);
  }

  lemma OneSlotVerdict(db: Db, candidates: Candidates, bound: Option<Slot>, fullSnapshot: Option<Slot>,
                       remaining: StoreCounts, k: Pubkey, s: Slot)
    requires HasEntry(candidates, k, s) && candidates[k].slotList.Keys == {s} && WithinBound(s, bound)
    ensures Passes(candidates[k], remaining) <==> s in remaining && remaining[s].count == 0
    ensures CannotPurge(candidates[k], bound, fullSnapshot) <==> fullSnapshot.Some? && s > fullSnapshot.value
    ensures Erasable(db, candidates, fullSnapshot, k) <==>
              AllLeave(db, candidates, s) && (fullSnapshot.None? || s <= fullSnapshot.value)
  {
    assert s in candidates[k].slotList;
    forall t | HasEntry(candidates, k, t) ensures t == s { assert t in candidates[k].slotList.Keys; }
    assert forall t | t in candidates[k].slotList :: t == s by {
      forall t | t in candidates[k].slotList ensures t == s { assert t in candidates[k].slotList.Keys; }
    }
  }
}
