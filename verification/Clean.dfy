/** `AccountsDb::clean_accounts`: garbage collection of outdated account versions and of
    zero-lamport accounts. */
module Clean {
  import opened Types
  import opened Rebuild
  import opened DeleteDependencies
  import opened CleanModel
  import opened CleanPhases

  /** The slots at which a set of places has key `k`. */
  function SlotsAt(places: set<Place>, k: Pubkey): set<Slot> {
    set p | p in places && p.1 == k :: p.0
  }

  function SlotsIn(places: set<Place>): (slots: set<Slot>)
    ensures forall s :: s in slots <==> KeysAt(places, s) != {}
  {
    var slots := set p | p in places :: p.0;
    assert forall p | p in places :: p.1 in KeysAt(places, p.0);
    slots
  }

  ghost predicate SameEntry(before: Index, after: Index, k: Pubkey) {
    (k in after <==> k in before) && (k in before ==> after[k] == before[k])
  }

  ghost predicate CountLowered(before: Storage, amount: nat, after: Storage) {
    after.accounts == before.accounts && after.count + amount == before.count
  }

  /** The keys recorded for slots up to `cap`. */
  function KeysUpTo(recorded: map<Slot, set<Pubkey>>, cap: Slot): set<Pubkey> {
    set s, k | s in recorded && s <= cap && k in recorded[s] :: k
  }

  /** What is recorded for slots after `cap`. */
  function Later(recorded: map<Slot, set<Pubkey>>, cap: Slot): map<Slot, set<Pubkey>> {
    map s | s in recorded && s > cap :: recorded[s]
  }

  /** The recorded zero-lamport places that both the bound and the latest full snapshot have reached. */
  function Due(recorded: set<Place>, cap: Slot, fullSnapshot: Option<Slot>): set<Place> {
    set place | place in recorded && place.0 <= cap && fullSnapshot.Some? && place.0 <= fullSnapshot.value
  }

  function KeysOf(places: set<Place>): set<Pubkey> { set place | place in places :: place.1 }

  /** The stores that were removed have become dirty, with all their keys. */
  ghost predicate DirtyAfter(before: map<Slot, Storage>, dirty: map<Slot, set<Pubkey>>,
                             after: map<Slot, Storage>, dirty': map<Slot, set<Pubkey>>) {
    && (forall s :: s in dirty' <==> s in dirty || (s in before && s !in after))
    && (forall s | s in dirty' ::
          dirty'[s] == if s in before && s !in after then before[s].accounts.Keys else dirty[s])
  }

  lemma DirtyTwice(a: map<Slot, Storage>, dirty: map<Slot, set<Pubkey>>, b: map<Slot, Storage>,
                   dirtyB: map<Slot, set<Pubkey>>, c: map<Slot, Storage>, dirtyC: map<Slot, set<Pubkey>>)
    requires DirtyAfter(a, dirty, b, dirtyB) && DirtyAfter(b, dirtyB, c, dirtyC)
    requires Prunes(FilesOf(a), FilesOf(b)) && Prunes(FilesOf(b), FilesOf(c))
    ensures DirtyAfter(a, dirty, c, dirtyC)
  {
    forall s | s in b ensures s in a && b[s].accounts == a[s].accounts { assert s in FilesOf(b); }
    forall s | s in c ensures s in b { assert s in FilesOf(c); }
  }

  class AccountsDb {
    var index: Index
    var storages: map<Slot, Storage>
    var roots: set<Slot>
    /** The highest slot that was ever made a root. */
    var maxRoot: Slot
    var latestFullSnapshotSlot: Option<Slot>
    /** The lowest root that an ongoing scan of the index needs. */
    var minOngoingScanRoot: Option<Slot>
    /** The keys in the stores that had accounts removed or were all zero. */
    var dirtyStores: map<Slot, set<Pubkey>>
    var uncleanedPubkeys: map<Slot, set<Pubkey>>
    var zeroLamportAccountsToPurgeAfterFullSnapshot: set<Place>

    ghost function Value(): Db
      reads this
    {
      Db(index, storages, roots, maxRoot)
    }

    ghost predicate Valid()
      reads this
    {
      && Consistent(Value())
      && (latestFullSnapshotSlot.None? ==> zeroLamportAccountsToPurgeAfterFullSnapshot == {})
    }

    constructor ()
      ensures Valid() && index == map[] && storages == map[]
      ensures minOngoingScanRoot == None && zeroLamportAccountsToPurgeAfterFullSnapshot == {}
    {
      index, storages, roots, maxRoot := map[], map[], {}, 0;
      latestFullSnapshotSlot, minOngoingScanRoot := None, None;
      dirtyStores, uncleanedPubkeys, zeroLamportAccountsToPurgeAfterFullSnapshot := map[], map[], {};
    }

    // ----- Primitive updates of the index and the storages -----

    /** Remove the entries of `key` at `slots`, and the key itself when none is left. */
    method RemoveEntries(key: Pubkey, slots: set<Slot>) returns (reclaims: set<Place>)
      requires SlotListsNonEmpty(Value())
      modifies this`index
      ensures EntriesRemoved(old(Value()), reclaims, Value())
      ensures forall k: Pubkey, s: Slot ::
        (s, k) in reclaims <==> k == key && s in slots && old(Entry(index, k, s)).Some?
      ensures forall k | k != key :: SameEntry(old(index), index, k)
    {
      reclaims := {};
      if key in index {
        var entry := index[key];
        reclaims := set s | s in entry.slotList && s in slots :: (s, key);
        var left := entry.slotList - slots;
        if left == map[] {
          forall s: Slot ensures s in entry.slotList ==> s in slots { assert s !in left; }
          index := index - {key};
        } else {
          index := index[key := entry.(slotList := left)];
        }
      }
    }

    /** `remove_dead_accounts`: lower the stores' counts, which never underflow, and find the
        stores that have no alive account left. */
    method RemoveDeadAccounts(reclaims: set<Place>) returns (dead: set<Slot>)
      requires forall s | s in storages :: |KeysAt(reclaims, s)| <= storages[s].count
      modifies this`storages, this`dirtyStores
      ensures dead == DeadSlots(old(Value()), reclaims)
      ensures storages.Keys == old(storages.Keys)
      ensures forall s | s in storages :: CountLowered(old(storages)[s], |KeysAt(reclaims, s)|, storages[s])
      ensures forall s :: s in dirtyStores <==> s in old(dirtyStores) || s in dead
      ensures forall s | s in dirtyStores ::
        dirtyStores[s] == if s in dead then old(storages)[s].accounts.Keys else old(dirtyStores)[s]
    {
      dead := {};
      var stores := storages;
      var todo := SlotsIn(reclaims);
      while todo != {}
        invariant stores.Keys == storages.Keys
        invariant forall s | s in stores && s in todo :: stores[s] == storages[s]
        invariant forall s | s in stores && s !in todo ::
          CountLowered(storages[s], |KeysAt(reclaims, s)|, stores[s])
        invariant forall s :: s in dead <==> s in DeadSlots(Value(), reclaims) && s !in todo
      {
        var slot :| slot in todo;
        todo := todo - {slot};
        if slot in stores {
          var remaining := stores[slot].count - |KeysAt(reclaims, slot)|;
          stores := stores[slot := stores[slot].(count := remaining)];
          if remaining == 0 { dead := dead + {slot}; }
        }
      }
      dirtyStores := dirtyStores + map s | s in dead :: stores[s].accounts.Keys;
      storages := stores;
    }

    /** `unref_accounts`: drop one reference per stored account of a dead slot.  No reference
        count underflows. */
    method UnrefAccounts(places: set<Place>)
      requires forall k | k in index :: |SlotsAt(places, k)| <= index[k].refCount
      modifies this`index
      ensures index.Keys == old(index.Keys)
      ensures forall k | k in index ::
        && index[k].slotList == old(index)[k].slotList
        && index[k].refCount + |SlotsAt(places, k)| == old(index)[k].refCount
    {
      var todo := places;
      while todo != {}
        invariant todo <= places
        invariant index.Keys == old(index.Keys)
        invariant forall k | k in index ::
          && index[k].slotList == old(index)[k].slotList
          && index[k].refCount + |SlotsAt(places, k)| == old(index)[k].refCount + |SlotsAt(todo, k)|
      {
        var place :| place in todo;
        var key := place.1;
        forall k ensures |SlotsAt(todo, k)| == |SlotsAt(todo - {place}, k)| + if k == key then 1 else 0 {
          SlotsAtMinus(todo, place, k);
        }
        todo := todo - {place};
        if key in index {
          index := index[key := index[key].(refCount := index[key].refCount - 1)];
        }
      }
      assert forall k: Pubkey :: SlotsAt(todo, k) == {};
    }

    /** Drop the references that the stored accounts of dead slots hold, and return those accounts. */
    method UnrefDead(dead: set<Slot>, ghost before: map<Slot, Storage>) returns (purged: set<Place>)
      requires dead <= before.Keys && storages.Keys == before.Keys
      requires forall s | s in storages :: storages[s].accounts == before[s].accounts
      requires forall k | k in index :: index[k].refCount == |Stores(before, k)|
      modifies this`index
      ensures forall s: Slot, k: Pubkey :: (s, k) in purged <==> s in dead && k in before[s].accounts
      ensures index.Keys == old(index.Keys)
      ensures forall k | k in index ::
        index[k].slotList == old(index)[k].slotList && index[k].refCount == |Stores(before, k) - dead|
    {
      purged := set s, k | s in dead && k in storages[s].accounts :: (s, k);
      forall k ensures |SlotsAt(purged, k)| + |Stores(before, k) - dead| == |Stores(before, k)| {
        ReferencesSplit(before, dead, purged, k);
      }
      UnrefAccounts(purged);
    }

    /** `handle_reclaims`, for callers that process dead slots.  Returns the stored accounts of
        the dead slots. */
    method HandleReclaims(reclaims: set<Place>) returns (purged: set<Place>)
      requires Reclaimable(Value(), reclaims)
      modifies this`index, this`storages, this`roots, this`dirtyStores
      ensures ReclaimedTo(old(Value()), reclaims, Value())
      ensures forall s: Slot, k: Pubkey ::
        (s, k) in purged <==> s in DeadSlots(old(Value()), reclaims) && k in old(storages)[s].accounts
      ensures DirtyAfter(old(storages), old(dirtyStores), storages, dirtyStores)
    {
      ghost var db := Value();
      var dead := RemoveDeadAccounts(reclaims);
      purged := UnrefDead(dead, db.storages);
      roots := roots - dead;
      storages := storages - dead;
    }

    // ----- The phases of clean -----

    /** `construct_candidate_clean_keys`: the keys of dirty stores and of uncleaned slots up to
        the bound, and the recorded zero-lamport keys that the bound and the latest full snapshot
        have both reached. */
    method ConstructCandidateCleanKeys(bound: Option<Slot>) returns (keys: set<Pubkey>)
      requires latestFullSnapshotSlot.None? ==> zeroLamportAccountsToPurgeAfterFullSnapshot == {}
      modifies this`dirtyStores, this`uncleanedPubkeys, this`zeroLamportAccountsToPurgeAfterFullSnapshot
      ensures forall k :: k in keys <==>
        || (exists s | s in old(dirtyStores) ::
              s <= (if bound.Some? then bound.value else maxRoot) && k in old(dirtyStores)[s])
        || (exists s | s in old(uncleanedPubkeys) ::
              s <= (if bound.Some? then bound.value else maxRoot) && k in old(uncleanedPubkeys)[s])
        || (exists s: Slot | (s, k) in old(zeroLamportAccountsToPurgeAfterFullSnapshot) ::
              && s <= (if bound.Some? then bound.value else maxRoot)
              && latestFullSnapshotSlot.Some? && s <= latestFullSnapshotSlot.value)
      ensures forall s: Slot, k: Pubkey :: (s, k) in zeroLamportAccountsToPurgeAfterFullSnapshot <==>
        && (s, k) in old(zeroLamportAccountsToPurgeAfterFullSnapshot)
        && !(s <= (if bound.Some? then bound.value else maxRoot)
             && latestFullSnapshotSlot.Some? && s <= latestFullSnapshotSlot.value)
      ensures forall s: Slot, k: Pubkey | (s, k) in old(zeroLamportAccountsToPurgeAfterFullSnapshot)
                                          && (s, k) !in zeroLamportAccountsToPurgeAfterFullSnapshot :: k in keys
      ensures zeroLamportAccountsToPurgeAfterFullSnapshot <= old(zeroLamportAccountsToPurgeAfterFullSnapshot)
      ensures forall s :: s in dirtyStores <==>
        s in old(dirtyStores) && s > (if bound.Some? then bound.value else maxRoot)
      ensures forall s | s in dirtyStores :: dirtyStores[s] == old(dirtyStores)[s]
      ensures forall s :: s in uncleanedPubkeys <==>
        s in old(uncleanedPubkeys) && s > (if bound.Some? then bound.value else maxRoot)
      ensures forall s | s in uncleanedPubkeys :: uncleanedPubkeys[s] == old(uncleanedPubkeys)[s]
    {
      var cap := Cap(bound);
      keys := KeysUpTo(dirtyStores, cap);
      dirtyStores := Later(dirtyStores, cap);
      keys := keys + KeysUpTo(uncleanedPubkeys, cap);
      uncleanedPubkeys := Later(uncleanedPubkeys, cap);
      if latestFullSnapshotSlot.Some? {
        var due := Due(zeroLamportAccountsToPurgeAfterFullSnapshot, cap, latestFullSnapshotSlot);
        keys := keys + KeysOf(due);
        zeroLamportAccountsToPurgeAfterFullSnapshot := zeroLamportAccountsToPurgeAfterFullSnapshot - due;
      }
    }

    function Cap(bound: Option<Slot>): Slot
      reads this
    {
      if bound.Some? then bound.value else maxRoot
    }

    /** The body of the candidate scan: remember a key whose newest rooted version has zero
        lamports, and remove its outdated versions from the index. */
    method ScanCandidate(key: Pubkey, bound: Option<Slot>) returns (info: CleaningInfo, reclaims: set<Place>)
      requires SlotListsNonEmpty(Value())
      modifies this`index
      ensures EntriesRemoved(old(Value()), reclaims, Value())
      ensures forall k: Pubkey, s: Slot :: (s, k) in reclaims <==> k == key && PurgeableIn(old(Value()), bound, k, s)
      ensures info == CandidateInfo(old(Value()), key, bound)
      ensures forall k | k != key :: SameEntry(old(index), index, k)
    {
      info, reclaims := CleaningInfo(map[], 0), {};
      if key in index {
        var slotList := index[key].slotList;
        var rooted := RootedEntries(slotList, roots, bound);
        var collect := true;
        if rooted != map[] {
          var newest := MaxOf(rooted.Keys);
          if rooted[newest].isZeroLamport { info := CleaningInfo(rooted, index[key].refCount); }
          collect := |slotList| > 1;
          if !collect { OneEntryIsNotOutdated(slotList, roots, maxRoot, bound); }
        }
        if collect {
          var outdated := set s | s in slotList && Purgeable(slotList, roots, maxRoot, bound, s);
          reclaims := RemoveEntries(key, outdated);
        }
      }
    }

    method ScanCandidates(keys: set<Pubkey>, bound: Option<Slot>) returns (candidates: Candidates, reclaims: set<Place>)
      requires SlotListsNonEmpty(Value())
      modifies this`index
      ensures ScannedTo(old(Value()), keys, bound, reclaims, Value())
      ensures ScanFound(old(Value()), keys, bound, candidates)
    {
      ghost var db := Value();
      candidates, reclaims := map[], {};
      var todo := keys;
      while todo != {}
        invariant todo <= keys
        invariant ScannedTo(db, keys - todo, bound, reclaims, Value())
        invariant ScanFound(db, keys - todo, bound, candidates)
        invariant forall k | k in todo :: SameEntry(db.index, index, k)
      {
        var key :| key in todo;
        ghost var mid := Value();
        var info, outdated := ScanCandidate(key, bound);
        ScanStep(db, keys - todo, key, bound, reclaims, mid, outdated, Value());
        forall k | k in todo && k != key ensures SameEntry(db.index, index, k) {
          assert SameEntry(mid.index, index, k);
        }
        reclaims := reclaims + outdated;
        if info.slotList != map[] { candidates := candidates[key := info]; }
        assert keys - (todo - {key}) == (keys - todo) + {key};
        todo := todo - {key};
      }
      assert keys - todo == keys;
    }

    /** The store-count phase: how many alive accounts each store keeps if all candidates go.
        No count underflows. */
    method CollectStoreCounts(candidates: Candidates) returns (storeCounts: StoreCounts)
      requires CountsExact(Value())
      requires forall k, s | HasEntry(candidates, k, s) :: s in storages && StoredAt(index, k, s)
      ensures StoreCountsFor(Value(), candidates, storeCounts)
    {
      storeCounts := map[];
      var all := set k, s | k in candidates && s in candidates[k].slotList :: (s, k);
      forall place | place in all ensures place.0 in storages && StoredAt(index, place.1, place.0) {
        assert HasEntry(candidates, place.1, place.0);
      }
      var counted: set<Place> := {};
      while counted != all
        invariant counted <= all
        invariant CountsFor(storages, counted, storeCounts)
        decreases all - counted
      {
        assert all - counted != {};
        var place :| place in all - counted;
        CountedIsAlive(index, counted, place);
        storeCounts := CountPlace(counted, storeCounts, place);
        counted := counted + {place};
      }
      CountsAreLinked(Value(), candidates, all, storeCounts);
    }

    /** Count one more candidate entry: its store loses an alive account. */
    method CountPlace(ghost counted: set<Place>, storeCounts: StoreCounts, place: Place) returns (more: StoreCounts)
      requires CountsFor(storages, counted, storeCounts)
      requires place !in counted && place.0 in storages && |KeysAt(counted, place.0)| < storages[place.0].count
      ensures CountsFor(storages, counted + {place}, more)
    {
      var slot, key := place.0, place.1;
      KeysAtPlus(counted, place);
      if slot in storeCounts {
        var store := storeCounts[slot];
        more := storeCounts[slot := StoreCount(store.count - 1, store.keys + {key})];
      } else {
        more := storeCounts[slot := StoreCount(storages[slot].count - 1, {key})];
      }
    }

    /** Drop the candidates' entries that the first reclaim took, and refresh the reference counts
        that it changed. */
    method RefreshCandidates(found: Candidates, purged: set<Place>, reclaims: set<Place>)
      returns (candidates: Candidates)
      ensures candidates.Keys == found.Keys
      ensures forall k | k in found :: candidates[k] == RefreshedInfo(index, found[k], k, purged, reclaims)
    {
      candidates := map k | k in found :: RefreshedInfo(index, found[k], k, purged, reclaims);
    }

    /** `filter_zero_lamport_clean_for_incremental_snapshots`: keep the candidates whose stores all
        die, but record those that the latest full snapshot does not cover. */
    method FilterZeroLamportClean(bound: Option<Slot>, remaining: StoreCounts, candidates: Candidates)
      returns (purged: Candidates)
      requires forall k | k in candidates :: candidates[k].slotList != map[]
      modifies this`zeroLamportAccountsToPurgeAfterFullSnapshot
      ensures Filtered(candidates, remaining, bound, latestFullSnapshotSlot, purged)
      ensures forall s: Slot, k: Pubkey :: (s, k) in zeroLamportAccountsToPurgeAfterFullSnapshot <==>
        || (s, k) in old(zeroLamportAccountsToPurgeAfterFullSnapshot)
        || (k in candidates && Recorded(candidates[k], remaining, bound, latestFullSnapshotSlot, s))
      ensures old(zeroLamportAccountsToPurgeAfterFullSnapshot) <= zeroLamportAccountsToPurgeAfterFullSnapshot
      ensures latestFullSnapshotSlot.None? ==>
        zeroLamportAccountsToPurgeAfterFullSnapshot == old(zeroLamportAccountsToPurgeAfterFullSnapshot)
    {
      purged := map[];
      var recorded := zeroLamportAccountsToPurgeAfterFullSnapshot;
      var todo := candidates.Keys;
      while todo != {}
        invariant todo <= candidates.Keys
        invariant forall k :: k in purged <==>
          k in candidates && k !in todo && Passes(candidates[k], remaining)
          && !CannotPurge(candidates[k], bound, latestFullSnapshotSlot)
        invariant forall k | k in purged :: purged[k] == candidates[k]
        invariant forall s: Slot, k: Pubkey :: (s, k) in recorded <==>
          || (s, k) in zeroLamportAccountsToPurgeAfterFullSnapshot
          || (k in candidates && k !in todo && Recorded(candidates[k], remaining, bound, latestFullSnapshotSlot, s))
        invariant zeroLamportAccountsToPurgeAfterFullSnapshot <= recorded
        invariant latestFullSnapshotSlot.None? ==> recorded == zeroLamportAccountsToPurgeAfterFullSnapshot
      {
        var key :| key in todo;
        todo := todo - {key};
        var info := candidates[key];
        if Passes(info, remaining) {
          if CannotPurge(info, bound, latestFullSnapshotSlot) {
            recorded := recorded + {(MaxOf(info.slotList.Keys), key)};
          } else {
            purged := purged[key := info];
          }
        }
      }
      zeroLamportAccountsToPurgeAfterFullSnapshot := recorded;
    }

    /** `purge_keys_exact` */
    method PurgeKeysExact(purged: Candidates) returns (reclaims: set<Place>)
      requires SlotListsNonEmpty(Value())
      modifies this`index
      ensures PurgedTo(old(Value()), purged, reclaims, Value())
    {
      ghost var db := Value();
      reclaims := {};
      var todo := purged.Keys;
      while todo != {}
        invariant todo <= purged.Keys
        invariant EntriesRemoved(db, reclaims, Value())
        invariant forall k: Pubkey, s: Slot :: (s, k) in reclaims <==>
          k !in todo && HasEntry(purged, k, s) && Entry(db.index, k, s).Some?
        invariant forall k | k in todo :: SameEntry(db.index, index, k)
      {
        var key :| key in todo;
        ghost var mid := Value();
        var gone := RemoveEntries(key, purged[key].slotList.Keys);
        EntriesRemovedTwice(db, reclaims, mid, gone, Value());
        forall k | k in todo && k != key ensures SameEntry(db.index, index, k) {
          assert SameEntry(mid.index, index, k);
        }
        todo := todo - {key};
        reclaims := reclaims + gone;
      }
    }

    /** The first half of clean: outdated versions of the candidate keys go. */
    method CleanOutdated(keys: set<Pubkey>, bound: Option<Slot>)
      returns (candidates: Candidates, ghost reclaimed: set<Place>, ghost scanned: Db)
      requires Consistent(Value()) && Flushed(Value(), bound)
      modifies this`index, this`storages, this`roots, this`dirtyStores
      ensures ScannedTo(old(Value()), keys, bound, reclaimed, scanned) && ReclaimedTo(scanned, reclaimed, Value())
      ensures Consistent(Value()) && Matches(Value(), candidates, bound)
      ensures CandidatesExact(Value(), keys, bound, candidates)
      ensures forall k :: k in candidates <==> k in keys && CandidateInfo(old(Value()), k, bound).slotList != map[]
      ensures forall k | k in keys :: OneRootedEntry(Value(), bound, k)
      ensures Prunes(FilesOf(old(storages)), FilesOf(storages))
      ensures forall k | Stores(old(storages), k) != {} :: MaxOf(Stores(old(storages), k)) in storages
      ensures DirtyAfter(old(storages), old(dirtyStores), storages, dirtyStores)
    {
      ghost var db := Value();
      var found, reclaims := ScanCandidates(keys, bound);
      reclaimed, scanned := reclaims, Value();
      ScanIsReclaimable(db, keys, bound, reclaims, scanned);
      var purged := HandleReclaims(reclaims);
      ghost var after := Value();
      candidates := RefreshCandidates(found, purged, reclaims);
      ReclaimKeepsConsistent(scanned, reclaims, after);
      ReclaimPrunes(scanned, reclaims, after);
      forall k | Stores(db.storages, k) != {} ensures MaxOf(Stores(db.storages, k)) in after.storages {
        ScanReclaimKeepsNewest(db, keys, bound, reclaims, scanned, after, k);
      }
      CandidatesMatch(db, keys, bound, reclaims, scanned, after, found, purged, candidates);
      forall k | k in keys ensures OneRootedEntry(after, bound, k) {
        OutdatedAreGone(db, keys, bound, reclaims, scanned, after, k);
      }
      CandidatesAreExact(db, keys, bound, reclaims, scanned, after, candidates);
    }

    /** Choose the candidates whose stores all die and that the latest full snapshot covers. */
    method SelectPurged(candidates: Candidates, bound: Option<Slot>) returns (purged: Candidates)
      requires Consistent(Value()) && Matches(Value(), candidates, bound)
      modifies this`zeroLamportAccountsToPurgeAfterFullSnapshot
      ensures Matches(Value(), purged, bound) && PurgeSafe(Value(), purged)
      ensures ErasesExactly(Value(), candidates, latestFullSnapshotSlot, purged)
      ensures forall k | k in purged :: purged[k] == candidates[k]
      ensures CoveredBy(purged, latestFullSnapshotSlot)
      ensures RecordsBlocked(Value(), candidates, latestFullSnapshotSlot,
                             old(zeroLamportAccountsToPurgeAfterFullSnapshot),
                             zeroLamportAccountsToPurgeAfterFullSnapshot)
    {
      var storeCounts := CollectStoreCounts(candidates);
      var remaining := CalcDeleteDependencies(candidates, storeCounts);
      purged := FilterZeroLamportClean(bound, remaining, candidates);
      FilterIsPurgeSafe(Value(), candidates, bound, latestFullSnapshotSlot, storeCounts, remaining, purged);
      forall k | k in candidates
        ensures k in purged <==> Erasable(Value(), candidates, latestFullSnapshotSlot, k)
      { PurgedIffErasable(Value(), candidates, bound, latestFullSnapshotSlot, storeCounts, remaining, purged, k); }
      forall k, s: Slot | HasEntry(purged, k, s) && latestFullSnapshotSlot.Some?
        ensures s <= latestFullSnapshotSlot.value
      {
        PurgedIsCovered(Value(), candidates, remaining, bound, latestFullSnapshotSlot, purged, k);
      }
      forall s: Slot, k: Pubkey | k in candidates
        ensures Recorded(candidates[k], remaining, bound, latestFullSnapshotSlot, s)
                <==> Blocked(Value(), candidates, latestFullSnapshotSlot, k, s)
      {
        RecordedIffBlocked(Value(), candidates, bound, latestFullSnapshotSlot, storeCounts, remaining, k, s);
      }
    }

    /** Remove the purged keys from the index; what they leave behind can be reclaimed. */
    method PurgeKeys(purged: Candidates, ghost bound: Option<Slot>) returns (reclaims: set<Place>)
      requires Consistent(Value()) && Matches(Value(), purged, bound) && PurgeSafe(Value(), purged)
      modifies this`index
      ensures PurgedTo(old(Value()), purged, reclaims, Value()) && Reclaimable(Value(), reclaims)
    {
      reclaims := PurgeKeysExact(purged);
      PurgeIsReclaimable(old(Value()), purged, bound, reclaims, Value());
    }

    /** Remove the purged keys from the index, and the stores that die with them. */
    method ReclaimPurged(purged: Candidates, ghost bound: Option<Slot>)
      requires Consistent(Value()) && Matches(Value(), purged, bound) && PurgeSafe(Value(), purged)
      requires CoveredBy(purged, latestFullSnapshotSlot)
      modifies this`index, this`storages, this`roots, this`dirtyStores
      ensures PurgedOutcome(old(Value()), purged, latestFullSnapshotSlot, Value())
      ensures DirtyAfter(old(storages), old(dirtyStores), storages, dirtyStores)
    {
      ghost var db, snapshot := Value(), latestFullSnapshotSlot;
      assert CoveredBy(purged, snapshot);
      var reclaims := PurgeKeys(purged, bound);
      ghost var mid := Value();
      var _ := HandleReclaims(reclaims);
      assert latestFullSnapshotSlot == snapshot;
      PurgeReclaims(db, purged, bound, snapshot, reclaims, mid, Value());
    }

    /** The second half of clean: zero-lamport candidates go, with all stores that hold them. */
    method PurgeZeroLamport(candidates: Candidates, bound: Option<Slot>) returns (purged: Candidates)
      requires Consistent(Value()) && Matches(Value(), candidates, bound)
      modifies this`index, this`storages, this`roots, this`dirtyStores, this`zeroLamportAccountsToPurgeAfterFullSnapshot
      ensures ErasesExactly(old(Value()), candidates, latestFullSnapshotSlot, purged)
      ensures forall k | k in purged :: purged[k] == candidates[k]
      ensures PurgedOutcome(old(Value()), purged, latestFullSnapshotSlot, Value())
      ensures RecordsBlocked(old(Value()), candidates, latestFullSnapshotSlot,
                             old(zeroLamportAccountsToPurgeAfterFullSnapshot),
                             zeroLamportAccountsToPurgeAfterFullSnapshot)
      ensures DirtyAfter(old(storages), old(dirtyStores), storages, dirtyStores)
    {
      purged := SelectPurged(candidates, bound);
      ReclaimPurged(purged, bound);
    }

    /** Clean the given keys: outdated versions first, then zero-lamport accounts. */
    method CleanKeys(keys: set<Pubkey>, bound: Option<Slot>) returns (ghost report: CleanReport)
      requires Valid() && Flushed(Value(), bound)
      modifies this`index, this`storages, this`roots, this`dirtyStores, this`zeroLamportAccountsToPurgeAfterFullSnapshot
      ensures Valid() && report.bound == bound && report.keys == keys
      ensures CleanOutcome(old(storages), latestFullSnapshotSlot, storages)
      ensures OnlyStoredLeave(old(Value()), Value())
      ensures forall k | k in keys :: OneRootedEntry(Value(), bound, k)
      ensures OutdatedRemoved(old(Value()), report)
      ensures CandidatesExact(report.cleaned, keys, bound, report.candidates)
      ensures ErasableGone(report, latestFullSnapshotSlot, Value())
      ensures RecordsBlocked(report.cleaned, report.candidates, latestFullSnapshotSlot,
                             old(zeroLamportAccountsToPurgeAfterFullSnapshot),
                             zeroLamportAccountsToPurgeAfterFullSnapshot)
      ensures DirtyAfter(old(storages), old(dirtyStores), storages, dirtyStores)
    {
      ghost var before, dirty, snapshot := storages, dirtyStores, latestFullSnapshotSlot;
      var candidates, reclaimed, scanned := CleanOutdated(keys, bound);
      report := CleanReport(bound, keys, reclaimed, scanned, Value(), candidates);
      ghost var mid, midDirty := storages, dirtyStores;
      var purged := PurgeZeroLamport(candidates, bound);
      assert latestFullSnapshotSlot == snapshot;
      if snapshot.None? {
        RecordsNothing(report.cleaned, candidates, {}, zeroLamportAccountsToPurgeAfterFullSnapshot);
      }
      DirtyTwice(before, dirty, mid, midDirty, storages, dirtyStores);
      KeysStaySettled(report, purged, snapshot, Value());
      OutdatedLeave(old(Value()), report);
      CleanedEntries(old(Value()), report, snapshot, Value());
      CleanChain(before, mid, storages, snapshot);
    }

    /** Clean keeps the database consistent and never brings an old balance back: a restart from
        the surviving storages reads the same accounts as before, and so does a restart from any
        earlier full snapshot combined with the surviving storages after it.  The keys of dirty,
        uncleaned and due slots lose their outdated versions; of their zero-lamport entries exactly
        the erasable ones go, with every stored copy, and exactly those that only the filter for
        incremental snapshots blocks are recorded.  A recorded key stays recorded until the bound and
        the latest full snapshot have both reached it, and is then scanned. */
    method CleanAccounts(maxCleanRootInclusive: Option<Slot>) returns (ghost report: CleanReport)
      requires Valid() && Flushed(Value(), MaxCleanRoot(minOngoingScanRoot, maxCleanRootInclusive))
      modifies this`index, this`storages, this`roots, this`dirtyStores, this`uncleanedPubkeys
      modifies this`zeroLamportAccountsToPurgeAfterFullSnapshot
      ensures Valid() && report.bound == old(MaxCleanRoot(minOngoingScanRoot, maxCleanRootInclusive))
      ensures CleanOutcome(old(storages), latestFullSnapshotSlot, storages)
      ensures OnlyStoredLeave(old(Value()), Value())
      ensures forall k :: k in report.keys <==>
        || (exists s | s in old(dirtyStores) ::
              s <= (if report.bound.Some? then report.bound.value else maxRoot) && k in old(dirtyStores)[s])
        || (exists s | s in old(uncleanedPubkeys) ::
              s <= (if report.bound.Some? then report.bound.value else maxRoot) && k in old(uncleanedPubkeys)[s])
        || (exists s: Slot | (s, k) in old(zeroLamportAccountsToPurgeAfterFullSnapshot) ::
              && s <= (if report.bound.Some? then report.bound.value else maxRoot)
              && latestFullSnapshotSlot.Some? && s <= latestFullSnapshotSlot.value)
      ensures forall s :: s in uncleanedPubkeys <==>
        s in old(uncleanedPubkeys) && s > (if report.bound.Some? then report.bound.value else maxRoot)
      ensures forall s | s in uncleanedPubkeys :: uncleanedPubkeys[s] == old(uncleanedPubkeys)[s]
      ensures forall s :: s in dirtyStores <==>
        || (s in old(dirtyStores) && s > (if report.bound.Some? then report.bound.value else maxRoot))
        || (s in old(storages) && s !in storages)
      ensures forall s | s in dirtyStores ::
        dirtyStores[s] == if s in old(storages) && s !in storages then old(storages)[s].accounts.Keys
                          else old(dirtyStores)[s]
      ensures forall k | k in report.keys :: OneRootedEntry(Value(), report.bound, k)
      ensures OutdatedRemoved(old(Value()), report)
      ensures CandidatesExact(report.cleaned, report.keys, report.bound, report.candidates)
      ensures ErasableGone(report, latestFullSnapshotSlot, Value())
      ensures forall s: Slot, k: Pubkey :: (s, k) in zeroLamportAccountsToPurgeAfterFullSnapshot <==>
        || ((s, k) in old(zeroLamportAccountsToPurgeAfterFullSnapshot)
            && !(s <= (if report.bound.Some? then report.bound.value else maxRoot)
                 && latestFullSnapshotSlot.Some? && s <= latestFullSnapshotSlot.value))
        || Blocked(report.cleaned, report.candidates, latestFullSnapshotSlot, k, s)
    {
      var bound := MaxCleanRoot(minOngoingScanRoot, maxCleanRootInclusive);
      var keys := ConstructCandidateCleanKeys(bound);
      report := CleanKeys(keys, bound);
    }
  }

  /** What a clean did on the way: the keys it scanned, the entries that left with outdated versions, the
      database after that, and the zero-lamport candidates. */
  datatype CleanReport = CleanReport(
    bound: Option<Slot>, keys: set<Pubkey>, reclaimed: set<Place>, scanned: Db, cleaned: Db, candidates: Candidates)

  /** The outdated versions of the keys, and only those, left, with the storages that died. */
  ghost predicate OutdatedRemoved(db: Db, report: CleanReport) {
    && EntriesRemoved(db, report.reclaimed, report.scanned)
    && (forall k: Pubkey, s: Slot :: (s, k) in report.reclaimed <==>
          k in report.keys && StoredAt(db.index, k, s) && NewerRooted(db, report.bound, k, s))
    && ReclaimedTo(report.scanned, report.reclaimed, report.cleaned)
  }

  lemma OutdatedLeave(db: Db, report: CleanReport)
    requires RootsBounded(db) && EntriesResolve(db)
    requires ScannedTo(db, report.keys, report.bound, report.reclaimed, report.scanned)
    requires ReclaimedTo(report.scanned, report.reclaimed, report.cleaned)
    ensures OutdatedRemoved(db, report)
  {
    forall k: Pubkey, s: Slot
      ensures (s, k) in report.reclaimed <==>
        k in report.keys && StoredAt(db.index, k, s) && NewerRooted(db, report.bound, k, s)
    {
      OutdatedIff(db, report.bound, k, s);
    }
  }

  /** Every erasable candidate has left the index and all storages; every other entry is as it was. */
  ghost predicate ErasableGone(report: CleanReport, fullSnapshot: Option<Slot>, after: Db) {
    && (forall k: Pubkey, s: Slot ::
          Entry(after.index, k, s) ==
          if HasEntry(report.candidates, k, s)
             && Erasable(report.cleaned, report.candidates, fullSnapshot, k)
          then None else Entry(report.cleaned.index, k, s))
    && (forall k | k in report.candidates
                   && Erasable(report.cleaned, report.candidates, fullSnapshot, k) ::
          Stores(after.storages, k) == {})
  }

  /** The index loses only entries that refer to storages: cached ones stay as they are. */
  ghost predicate OnlyStoredLeave(before: Db, after: Db) {
    && after.roots <= before.roots
    && forall k: Pubkey, s: Slot ::
         || Entry(after.index, k, s) == Entry(before.index, k, s)
         || (Entry(after.index, k, s).None? && StoredAt(before.index, k, s))
  }

  lemma StaysFlushed(before: Db, after: Db, bound: Option<Slot>)
    requires Flushed(before, bound) && OnlyStoredLeave(before, after)
    ensures Flushed(after, bound)
  {
    forall k: Pubkey, s: Slot | Entry(after.index, k, s).Some? && s in after.roots && WithinBound(s, bound)
      ensures StoredAt(after.index, k, s)
    {
      assert Entry(after.index, k, s) == Entry(before.index, k, s);
    }
  }

  /** One clean, seen from the record of zero-lamport accounts that wait for a full snapshot: what was
      recorded before it and after it, how far it went, the latest full snapshot, and the keys it scanned. */
  datatype RecordStep = RecordStep(
    before: set<Place>, cap: Slot, snapshot: Option<Slot>, keys: set<Pubkey>, after: set<Place>)
  {
    predicate Reaches(s: Slot) { s <= cap && snapshot.Some? && s <= snapshot.value }

    ghost predicate Valid() {
      forall s: Slot, k: Pubkey | (s, k) in before :: if Reaches(s) then k in keys else (s, k) in after
    }
  }

  /** Over any series of cleans, a recorded account stays recorded until the first clean whose bound and
      snapshot have both reached it, and that clean scans its key. */
  lemma {:induction false} RecordedUntilReached(steps: seq<RecordStep>, n: nat, s: Slot, k: Pubkey)
    requires n < |steps| && (forall i | 0 <= i < |steps| :: steps[i].Valid())
    requires forall i | 0 < i < |steps| :: steps[i].before == steps[i - 1].after
    requires (s, k) in steps[0].before
    requires forall i | 0 <= i < n :: !(s <= steps[i].cap && steps[i].snapshot.Some? && s <= steps[i].snapshot.value)
    ensures (s, k) in steps[n].before
    ensures if s <= steps[n].cap && steps[n].snapshot.Some? && s <= steps[n].snapshot.value
            then k in steps[n].keys else (s, k) in steps[n].after
  {
    if n > 0 { RecordedUntilReached(steps, n - 1, s, k); }
    assert steps[n].Valid();
  }

  /** One round of the background thread: a full snapshot is taken, and then clean runs. */
  method CleanRound(db: AccountsDb, snapshot: Slot, bound: Option<Slot>) returns (ghost step: RecordStep)
    requires db.Valid() && Flushed(db.Value(), MaxCleanRoot(db.minOngoingScanRoot, bound))
    modifies db
    ensures db.Valid() && OnlyStoredLeave(old(db.Value()), db.Value())
    ensures db.maxRoot == old(db.maxRoot) && db.minOngoingScanRoot == old(db.minOngoingScanRoot)
    ensures step.Valid() && step.snapshot == Some(snapshot)
    ensures step.cap == var b := MaxCleanRoot(db.minOngoingScanRoot, bound); if b.Some? then b.value else db.maxRoot
    ensures step.before == old(db.zeroLamportAccountsToPurgeAfterFullSnapshot)
    ensures step.after == db.zeroLamportAccountsToPurgeAfterFullSnapshot
  {
    ghost var before, cap := db.zeroLamportAccountsToPurgeAfterFullSnapshot,
      db.Cap(MaxCleanRoot(db.minOngoingScanRoot, bound));
    db.latestFullSnapshotSlot := Some(snapshot);
    ghost var report := db.CleanAccounts(bound);
    step := RecordStep(before, cap, Some(snapshot), report.keys, db.zeroLamportAccountsToPurgeAfterFullSnapshot);
  }

  /** Any number of rounds gives a series to which `RecordedUntilReached` applies. */
  method CleanRounds(db: AccountsDb, rounds: seq<(Slot, Option<Slot>)>) returns (ghost steps: seq<RecordStep>)
    requires db.Valid()
    requires forall i | 0 <= i < |rounds| :: Flushed(db.Value(), MaxCleanRoot(db.minOngoingScanRoot, rounds[i].1))
    modifies db
    ensures db.Valid() && |steps| == |rounds|
    ensures forall i | 0 <= i < |steps| :: steps[i].Valid() && steps[i].snapshot == Some(rounds[i].0)
    ensures forall i | 0 < i < |steps| :: steps[i].before == steps[i - 1].after
    ensures steps != [] ==> steps[0].before == old(db.zeroLamportAccountsToPurgeAfterFullSnapshot)
    ensures steps != [] ==> steps[|steps| - 1].after == db.zeroLamportAccountsToPurgeAfterFullSnapshot
  {
    steps := [];
    for n := 0 to |rounds|
      invariant db.Valid() && |steps| == n && db.minOngoingScanRoot == old(db.minOngoingScanRoot)
      invariant forall i | n <= i < |rounds| ::
        Flushed(db.Value(), MaxCleanRoot(db.minOngoingScanRoot, rounds[i].1))
      invariant forall i | 0 <= i < n :: steps[i].Valid() && steps[i].snapshot == Some(rounds[i].0)
      invariant forall i | 0 < i < n :: steps[i].before == steps[i - 1].after
      invariant n > 0 ==> steps[0].before == old(db.zeroLamportAccountsToPurgeAfterFullSnapshot)
      invariant db.zeroLamportAccountsToPurgeAfterFullSnapshot
                == if n == 0 then old(db.zeroLamportAccountsToPurgeAfterFullSnapshot) else steps[n - 1].after
    {
      ghost var start := db.Value();
      ghost var step := CleanRound(db, rounds[n].0, rounds[n].1);
      forall i | n < i < |rounds|
        ensures Flushed(db.Value(), MaxCleanRoot(db.minOngoingScanRoot, rounds[i].1))
      {
        StaysFlushed(start, db.Value(), MaxCleanRoot(db.minOngoingScanRoot, rounds[i].1));
      }
      steps := steps + [step];
    }
  }

  /** Two cleans with a full snapshot between them: what the first one records is scanned by the second if
      its bound and the snapshot have reached it, and stays recorded otherwise. */
  method CleanTwice(db: AccountsDb, first: Option<Slot>, snapshot: Slot, second: Option<Slot>)
    returns (ghost one: CleanReport, ghost two: CleanReport)
    requires db.Valid() && Flushed(db.Value(), MaxCleanRoot(db.minOngoingScanRoot, first))
    requires Flushed(db.Value(), MaxCleanRoot(db.minOngoingScanRoot, second))
    modifies db
    ensures db.Valid() && db.maxRoot == old(db.maxRoot)
    ensures forall s: Slot, k: Pubkey |
      || Blocked(one.cleaned, one.candidates, old(db.latestFullSnapshotSlot), k, s)
      || ((s, k) in old(db.zeroLamportAccountsToPurgeAfterFullSnapshot)
          && !(s <= (if one.bound.Some? then one.bound.value else db.maxRoot)
               && old(db.latestFullSnapshotSlot).Some? && s <= old(db.latestFullSnapshotSlot).value)) ::
      if s <= (if two.bound.Some? then two.bound.value else db.maxRoot) && s <= snapshot
      then k in two.keys else (s, k) in db.zeroLamportAccountsToPurgeAfterFullSnapshot
  {
    ghost var start := db.Value();
    one := db.CleanAccounts(first);
    StaysFlushed(start, db.Value(), MaxCleanRoot(db.minOngoingScanRoot, second));
    ghost var recorded := db.zeroLamportAccountsToPurgeAfterFullSnapshot;
    db.latestFullSnapshotSlot := Some(snapshot);
    two := db.CleanAccounts(second);
    assert forall s: Slot, k: Pubkey | (s, k) in recorded ::
      if s <= (if two.bound.Some? then two.bound.value else db.maxRoot) && s <= snapshot
      then k in two.keys else (s, k) in db.zeroLamportAccountsToPurgeAfterFullSnapshot;
  }

  lemma CleanedEntries(before: Db, report: CleanReport, fullSnapshot: Option<Slot>, after: Db)
    requires OutdatedRemoved(before, report) && ErasableGone(report, fullSnapshot, after)
    requires CandidatesExact(report.cleaned, report.keys, report.bound, report.candidates)
    requires after.roots <= report.cleaned.roots
    ensures OnlyStoredLeave(before, after)
  {
    SameSlotLists(report.scanned.index, report.cleaned.index);
    forall k: Pubkey, s: Slot
      ensures || Entry(after.index, k, s) == Entry(before.index, k, s)
              || (Entry(after.index, k, s).None? && StoredAt(before.index, k, s))
    {
      assert (s, k) in report.reclaimed ==> StoredAt(before.index, k, s);
      assert HasEntry(report.candidates, k, s) ==> StoredAt(report.cleaned.index, k, s);
    }
  }

  /** Clean removes whole storages and changes no restored account, also not in a restart from any full
      snapshot and the later storages. */
  ghost predicate CleanOutcome(before: map<Slot, Storage>, fullSnapshot: Option<Slot>, after: map<Slot, Storage>) {
    && Prunes(FilesOf(before), FilesOf(after))
    && (forall k :: Live(FilesOf(after), k) == Live(FilesOf(before), k))
    && (fullSnapshot.Some? ==> forall full, k ::
          Live(Restore(full, FilesOf(after), fullSnapshot.value), k)
          == Live(Restore(full, FilesOf(before), fullSnapshot.value), k))
  }

  lemma CleanChain(before: map<Slot, Storage>, mid: map<Slot, Storage>, after: map<Slot, Storage>,
                   fullSnapshot: Option<Slot>)
    requires Prunes(FilesOf(before), FilesOf(mid)) && Prunes(FilesOf(mid), FilesOf(after))
    requires forall k | Stores(before, k) != {} :: MaxOf(Stores(before, k)) in mid
    requires forall k | Stores(mid, k) != {} :: ErasedOrKept(mid, after, fullSnapshot, k)
    ensures CleanOutcome(before, fullSnapshot, after)
  {
    forall k ensures Live(FilesOf(after), k) == Live(FilesOf(before), k) {
      CleanKeepsLive(before, mid, after, fullSnapshot, k);
    }
    if fullSnapshot.Some? {
      forall full, k
        ensures Live(Restore(full, FilesOf(after), fullSnapshot.value), k)
                == Live(Restore(full, FilesOf(before), fullSnapshot.value), k)
      {
        CleanKeepsRestored(before, mid, after, fullSnapshot.value, full, k);
      }
    }
  }

  lemma KeysStaySettled(report: CleanReport, purged: Candidates, fullSnapshot: Option<Slot>, after: Db)
    requires forall k | k in report.keys :: OneRootedEntry(report.cleaned, report.bound, k)
    requires ErasesExactly(report.cleaned, report.candidates, fullSnapshot, purged)
    requires forall k | k in purged :: purged[k] == report.candidates[k]
    requires PurgedOutcome(report.cleaned, purged, fullSnapshot, after)
    ensures forall k | k in report.keys :: OneRootedEntry(after, report.bound, k)
    ensures ErasableGone(report, fullSnapshot, after)
  {
    forall k | k in report.keys ensures OneRootedEntry(after, report.bound, k) {
      assert OneRootedEntry(report.cleaned, report.bound, k);
      forall s | RootedEntry(after, report.bound, k, s) ensures RootedEntry(report.cleaned, report.bound, k, s) {}
    }
  }

  lemma SlotsAtMinus(places: set<Place>, place: Place, k: Pubkey)
    requires place in places
    ensures |SlotsAt(places, k)| == |SlotsAt(places - {place}, k)| + if k == place.1 then 1 else 0
  {
    var fewer := SlotsAt(places - {place}, k);
    if k == place.1 {
      assert place.0 !in fewer;
      assert SlotsAt(places, k) == fewer + {place.0} by {
        forall s | s in SlotsAt(places, k) ensures s in fewer + {place.0} {
          if s != place.0 { assert (s, k) in places - {place}; }
        }
      }
    } else {
      assert SlotsAt(places, k) == fewer by {
        forall s | s in SlotsAt(places, k) ensures s in fewer { assert (s, k) in places - {place}; }
      }
    }
  }

  /** The storages that hold `k` split into the dead ones, each dropping a reference, and the rest. */
  lemma ReferencesSplit(storages: map<Slot, Storage>, dead: set<Slot>, purged: set<Place>, k: Pubkey)
    requires dead <= storages.Keys
    requires forall s: Slot, k: Pubkey :: (s, k) in purged <==> s in dead && k in storages[s].accounts
    ensures |SlotsAt(purged, k)| + |Stores(storages, k) - dead| == |Stores(storages, k)|
  {
    var holders, gone := Stores(storages, k), SlotsAt(purged, k);
    assert gone == holders * dead by {
      forall s | s in holders * dead ensures s in gone { assert (s, k) in purged; }
    }
    assert holders == gone + (holders - dead);
  }

  /** What the scan notes of a key: its rooted entries if the newest one has zero lamports. */
  function CandidateInfo(db: Db, k: Pubkey, bound: Option<Slot>): CleaningInfo {
    if k !in db.index then CleaningInfo(map[], 0)
    else
      var rooted := RootedEntries(db.index[k].slotList, db.roots, bound);
      if rooted != map[] && rooted[MaxOf(rooted.Keys)].isZeroLamport
      then CleaningInfo(rooted, db.index[k].refCount)
      else CleaningInfo(map[], 0)
  }

  ghost predicate ScanFound(db: Db, keys: set<Pubkey>, bound: Option<Slot>, candidates: Candidates) {
    && (forall k :: k in candidates <==> k in keys && CandidateInfo(db, k, bound).slotList != map[])
    && (forall k | k in candidates :: candidates[k] == CandidateInfo(db, k, bound))
  }

  lemma OneEntryIsNotOutdated(slotList: SlotList, roots: set<Slot>, maxRoot: Slot, bound: Option<Slot>)
    requires |slotList| <= 1 && RootedEntries(slotList, roots, bound) != map[]
    ensures forall s :: !Purgeable(slotList, roots, maxRoot, bound, s)
  {
    var newest := MaxOf(RootedEntries(slotList, roots, bound).Keys);
    forall s | s in slotList ensures s == newest {
      SubsetCardinality({s, newest}, slotList.Keys);
    }
  }

  /** The store counts after counting the places in `counted`. */
  ghost predicate CountsFor(storages: map<Slot, Storage>, counted: set<Place>, storeCounts: StoreCounts) {
    && (forall s :: s in storeCounts <==> KeysAt(counted, s) != {})
    && (forall s | s in storeCounts ::
          && s in storages && storeCounts[s].keys == KeysAt(counted, s)
          && storeCounts[s].count + |storeCounts[s].keys| == storages[s].count)
  }

  lemma CountsAreLinked(db: Db, candidates: Candidates, all: set<Place>, storeCounts: StoreCounts)
    requires CountsFor(db.storages, all, storeCounts)
    requires forall s: Slot, k: Pubkey :: (s, k) in all <==> HasEntry(candidates, k, s)
    ensures StoreCountsFor(db, candidates, storeCounts)
  {
    forall s: Slot, k: Pubkey ensures k in KeysAt(all, s) <==> HasEntry(candidates, k, s) {
      assert (s, k) in all <==> HasEntry(candidates, k, s);
    }
  }

  lemma CountedIsAlive(index: Index, counted: set<Place>, place: Place)
    requires place !in counted && StoredAt(index, place.1, place.0)
    requires forall p | p in counted :: StoredAt(index, p.1, p.0)
    ensures |KeysAt(counted, place.0)| < |AliveAt(index, place.0)|
  {
    var s := place.0;
    assert place.1 !in KeysAt(counted, s);
    assert KeysAt(counted, s) <= AliveAt(index, s) - {place.1};
    SubsetCardinality(KeysAt(counted, s), AliveAt(index, s) - {place.1});
  }

  lemma KeysAtPlus(counted: set<Place>, place: Place)
    requires place !in counted
    ensures KeysAt(counted + {place}, place.0) == KeysAt(counted, place.0) + {place.1}
    ensures place.1 !in KeysAt(counted, place.0)
    ensures forall s | s != place.0 :: KeysAt(counted + {place}, s) == KeysAt(counted, s)
  {
  }

  lemma ScanStep(db: Db, done: set<Pubkey>, key: Pubkey, bound: Option<Slot>, reclaims: set<Place>,
                 mid: Db, outdated: set<Place>, after: Db)
    requires ScannedTo(db, done, bound, reclaims, mid)
    requires EntriesRemoved(mid, outdated, after) && SameEntry(db.index, mid.index, key)
    requires forall k: Pubkey, s: Slot :: (s, k) in outdated <==> k == key && PurgeableIn(mid, bound, k, s)
    ensures ScannedTo(db, done + {key}, bound, reclaims + outdated, after)
    ensures CandidateInfo(mid, key, bound) == CandidateInfo(db, key, bound)
  {
    EntriesRemovedTwice(db, reclaims, mid, outdated, after);
    assert forall s :: PurgeableIn(mid, bound, key, s) == PurgeableIn(db, bound, key, s);
  }

  lemma SubsetCardinality<T>(a: set<T>, b: set<T>)
    requires a <= b
    ensures |a| <= |b|
  {
    assert b == a + (b - a);
  }

  /** A candidate after the first reclaim: entries in reclaimed places or purged slots are gone, and
      the reference count is read again if a purged slot held the key. */
  function RefreshedInfo(index: Index, info: CleaningInfo, k: Pubkey, purged: set<Place>, reclaims: set<Place>)
    : CleaningInfo
  {
    CleaningInfo(
      map s | s in info.slotList && (s, k) !in purged && (s, k) !in reclaims :: info.slotList[s],
      if SlotsAt(purged, k) == {} then info.refCount else if k in index then index[k].refCount else 0)
  }

  /** The filter records slot `s` for the candidate. */
  ghost predicate Recorded(info: CleaningInfo, remaining: StoreCounts, bound: Option<Slot>,
                           fullSnapshot: Option<Slot>, s: Slot)
    requires info.slotList != map[]
  {
    && Passes(info, remaining) && CannotPurge(info, bound, fullSnapshot)
    && s == MaxOf(info.slotList.Keys)
  }

  /** The newest version of `k` is still stored, or it had zero lamports and, if there is a full
      snapshot, was covered by it, and no version is left. */
  ghost predicate ErasedOrKept(before: map<Slot, Storage>, after: map<Slot, Storage>,
                               fullSnapshot: Option<Slot>, k: Pubkey)
    requires Stores(before, k) != {}
  {
    var newest := MaxOf(Stores(before, k));
    || newest in after
    || (&& before[newest].accounts[k].IsZeroLamport() && Stores(after, k) == {}
        && (fullSnapshot.Some? ==> newest <= fullSnapshot.value))
  }

  /** The latest full snapshot covers every entry that is purged. */
  ghost predicate CoveredBy(purged: Candidates, fullSnapshot: Option<Slot>) {
    forall k, s: Slot | HasEntry(purged, k, s) && fullSnapshot.Some? :: s <= fullSnapshot.value
  }

  /** What purging keys amounts to: their entries go, a database that is consistent again stays, and
      each key has either its newest version left or none at all. */
  ghost predicate PurgedOutcome(db: Db, purged: Candidates, fullSnapshot: Option<Slot>, after: Db) {
    && Consistent(after) && after.roots <= db.roots && Prunes(FilesOf(db.storages), FilesOf(after.storages))
    && (forall k: Pubkey, s: Slot ::
          Entry(after.index, k, s) == if HasEntry(purged, k, s) then None else Entry(db.index, k, s))
    && (forall k | Stores(db.storages, k) != {} :: ErasedOrKept(db.storages, after.storages, fullSnapshot, k))
    && (forall k | k in purged :: Stores(after.storages, k) == {})
  }

  lemma PurgeReclaims(db: Db, purged: Candidates, bound: Option<Slot>, fullSnapshot: Option<Slot>,
                      reclaims: set<Place>, mid: Db, after: Db)
    requires Consistent(db) && Matches(db, purged, bound) && PurgeSafe(db, purged)
    requires PurgedTo(db, purged, reclaims, mid) && Reclaimable(mid, reclaims) && ReclaimedTo(mid, reclaims, after)
    requires CoveredBy(purged, fullSnapshot)
    ensures PurgedOutcome(db, purged, fullSnapshot, after)
  {
    ReclaimKeepsConsistent(mid, reclaims, after);
    ReclaimPrunes(mid, reclaims, after);
    SameSlotLists(mid.index, after.index);
    forall k | Stores(db.storages, k) != {}
      ensures ErasedOrKept(db.storages, after.storages, fullSnapshot, k)
    {
      PurgeReclaimKeepsNewest(db, purged, bound, reclaims, mid, after, k);
    }
    forall k | k in purged ensures Stores(after.storages, k) == {} {
      if Stores(db.storages, k) != {} {
        PurgeReclaimKeepsNewest(db, purged, bound, reclaims, mid, after, k);
      } else {
        ReclaimedStores(mid, reclaims, after, k);
      }
    }
  }

  // ----- Which keys are erased and which are recorded -----

  /** In `db`, key `k` has a rooted zero-lamport entry at `s` within the bound. */
  ghost predicate ZeroRooted(db: Db, bound: Option<Slot>, k: Pubkey, s: Slot) {
    RootedEntry(db, bound, k, s) && StoredAt(db.index, k, s) && Entry(db.index, k, s).value.isZeroLamport
  }

  /** The candidates' entries are exactly the rooted zero-lamport entries of the keys. */
  ghost predicate CandidatesExact(db: Db, keys: set<Pubkey>, bound: Option<Slot>, candidates: Candidates) {
    forall k: Pubkey, s: Slot :: HasEntry(candidates, k, s) <==> k in keys && ZeroRooted(db, bound, k, s)
  }

  /** Only the filter for incremental snapshots keeps the candidate's entry: all else in its store leaves. */
  ghost predicate Blocked(
    db: Db, candidates: Candidates, fullSnapshot: Option<Slot>, k: Pubkey, s: Slot)
  {
    && HasEntry(candidates, k, s) && AllLeave(db, candidates, s)
    && fullSnapshot.Some? && s > fullSnapshot.value
  }

  /** Exactly the blocked entries are added to the record. */
  ghost predicate RecordsBlocked(db: Db, candidates: Candidates, fullSnapshot: Option<Slot>,
                                 before: set<Place>, after: set<Place>) {
    forall s: Slot, k: Pubkey ::
      (s, k) in after <==> (s, k) in before || Blocked(db, candidates, fullSnapshot, k, s)
  }

  lemma RecordedIffBlocked(db: Db, candidates: Candidates, bound: Option<Slot>, fullSnapshot: Option<Slot>,
                           storeCounts: StoreCounts, remaining: StoreCounts, k: Pubkey, s: Slot)
    requires Consistent(db) && Matches(db, candidates, bound) && StoreCountsFor(db, candidates, storeCounts)
    requires forall s :: s in remaining <==> s in storeCounts && !Kept(candidates, storeCounts, s)
    requires forall s | s in remaining :: remaining[s] == storeCounts[s]
    requires k in candidates
    ensures Recorded(candidates[k], remaining, bound, fullSnapshot, s)
            <==> Blocked(db, candidates, fullSnapshot, k, s)
  {
    var only :| only in candidates[k].slotList;
    assert HasEntry(candidates, k, only);
    OneSlotList(db, candidates, bound, k, only);
    OneSlotRecorded(candidates[k], remaining, bound, fullSnapshot, only, s);
    assert HasEntry(candidates, k, s) <==> s == only by {
      assert HasEntry(candidates, k, s) <==> s in candidates[k].slotList.Keys;
    }
    assert only in remaining && remaining[only].count == 0 <==> AllLeave(db, candidates, only) by {
      RemainsIffAllLeave(db, candidates, bound, storeCounts, only);
    }
  }

  lemma OneSlotRecorded(info: CleaningInfo, remaining: StoreCounts, bound: Option<Slot>, fullSnapshot: Option<Slot>,
                        only: Slot, s: Slot)
    requires info.slotList.Keys == {only} && WithinBound(only, bound)
    ensures info.slotList != map[]
    ensures Recorded(info, remaining, bound, fullSnapshot, s) <==>
      && s == only && only in remaining && remaining[only].count == 0
      && fullSnapshot.Some? && only > fullSnapshot.value
  {
    assert only in info.slotList;
    forall t | t in info.slotList ensures t == only { assert t in info.slotList.Keys; }
    assert MaxOf(info.slotList.Keys) in info.slotList.Keys;
  }

  lemma RecordsNothing(db: Db, candidates: Candidates, before: set<Place>, after: set<Place>)
    requires RecordsBlocked(db, candidates, None, before, after)
    ensures after == before
  {
    forall p ensures p in after <==> p in before { assert p == (p.0, p.1); }
  }

  lemma PurgedIsCovered(db: Db, candidates: Candidates, remaining: StoreCounts, bound: Option<Slot>,
                        fullSnapshot: Option<Slot>, purged: Candidates, k: Pubkey)
    requires Matches(db, candidates, bound)
    requires Filtered(candidates, remaining, bound, fullSnapshot, purged) && k in purged
    ensures forall s: Slot | HasEntry(purged, k, s) && fullSnapshot.Some? :: s <= fullSnapshot.value
  {
    forall s: Slot | HasEntry(purged, k, s) && fullSnapshot.Some? ensures s <= fullSnapshot.value {
      assert HasEntry(candidates, k, s);
    }
  }

  lemma CleanKeepsLive(before: map<Slot, Storage>, mid: map<Slot, Storage>, after: map<Slot, Storage>,
                       fullSnapshot: Option<Slot>, k: Pubkey)
    requires Prunes(FilesOf(before), FilesOf(mid)) && Prunes(FilesOf(mid), FilesOf(after))
    requires Stores(before, k) != {} ==> MaxOf(Stores(before, k)) in mid
    requires Stores(mid, k) != {} ==> ErasedOrKept(mid, after, fullSnapshot, k)
    ensures Live(FilesOf(after), k) == Live(FilesOf(before), k)
  {
    StoresAreHolders(before, k); StoresAreHolders(mid, k); StoresAreHolders(after, k);
    PruneKeepsLive(FilesOf(before), FilesOf(mid), k);
    PruneKeepsLive(FilesOf(mid), FilesOf(after), k);
  }

  lemma CleanKeepsRestored(before: map<Slot, Storage>, mid: map<Slot, Storage>, after: map<Slot, Storage>,
                           snapshotSlot: Slot, full: Files, k: Pubkey)
    requires Prunes(FilesOf(before), FilesOf(mid)) && Prunes(FilesOf(mid), FilesOf(after))
    requires Stores(before, k) != {} ==> MaxOf(Stores(before, k)) in mid
    requires Stores(mid, k) != {} ==> ErasedOrKept(mid, after, Some(snapshotSlot), k)
    ensures Live(Restore(full, FilesOf(after), snapshotSlot), k)
            == Live(Restore(full, FilesOf(before), snapshotSlot), k)
  {
    StoresAreHolders(before, k); StoresAreHolders(mid, k);
    PruneKeepsRestored(full, FilesOf(before), FilesOf(mid), snapshotSlot, k);
    PruneKeepsRestored(full, FilesOf(mid), FilesOf(after), snapshotSlot, k);
  }

  /** After the first reclaim each candidate has exactly its newest rooted entry left. */
  lemma CandidatesMatch(db: Db, keys: set<Pubkey>, bound: Option<Slot>, reclaims: set<Place>, scanned: Db, after: Db,
                        found: Candidates, purged: set<Place>, candidates: Candidates)
    requires Consistent(db) && Flushed(db, bound)
    requires ScannedTo(db, keys, bound, reclaims, scanned) && ScanFound(db, keys, bound, found)
    requires Reclaimable(scanned, reclaims) && ReclaimedTo(scanned, reclaims, after)
    requires forall s: Slot, k: Pubkey ::
      (s, k) in purged <==> s in DeadSlots(scanned, reclaims) && k in scanned.storages[s].accounts
    requires candidates.Keys == found.Keys
    requires forall k | k in found :: candidates[k] == RefreshedInfo(after.index, found[k], k, purged, reclaims)
    ensures Matches(after, candidates, bound)
  {
    forall k | k in candidates
      ensures MatchesOne(after, candidates[k], bound, k)
    {
      CandidateMatches(db, keys, bound, reclaims, scanned, after, found, purged, k);
    }
    MatchesAll(after, candidates, bound);
  }

  ghost predicate OnlyEntry(db: Db, info: CleaningInfo, bound: Option<Slot>, k: Pubkey, newest: Slot) {
    && info.slotList.Keys == {newest} && WithinBound(newest, bound)
    && StoredAt(db.index, k, newest) && Entry(db.index, k, newest) == Some(info.slotList[newest])
    && info.slotList[newest].isZeroLamport
  }

  ghost predicate MatchesOne(db: Db, info: CleaningInfo, bound: Option<Slot>, k: Pubkey) {
    && k in db.index && info.refCount == db.index[k].refCount
    && exists newest :: OnlyEntry(db, info, bound, k, newest)
  }

  lemma MatchesAll(db: Db, candidates: Candidates, bound: Option<Slot>)
    requires forall k | k in candidates :: MatchesOne(db, candidates[k], bound, k)
    ensures Matches(db, candidates, bound)
  {
    forall k | k in candidates ensures candidates[k].slotList != map[] {
      var newest :| OnlyEntry(db, candidates[k], bound, k, newest);
      assert newest in candidates[k].slotList;
    }
    forall k, s | HasEntry(candidates, k, s)
      ensures OnlyEntry(db, candidates[k], bound, k, s)
    {
      var newest :| OnlyEntry(db, candidates[k], bound, k, newest);
      assert s in candidates[k].slotList.Keys;
    }
    forall k, s, t | HasEntry(candidates, k, s) && HasEntry(candidates, k, t) ensures s == t {
      assert OnlyEntry(db, candidates[k], bound, k, s) && t in candidates[k].slotList.Keys;
    }
  }

  /** A candidate's newest rooted entry survives the first reclaim, and its other rooted entries
      are reclaimed by it. */
  lemma NewestRootedStays(db: Db, keys: set<Pubkey>, bound: Option<Slot>, reclaims: set<Place>, scanned: Db, k: Pubkey)
    requires RootsBounded(db) && EntriesResolve(db) && Flushed(db, bound)
    requires ScannedTo(db, keys, bound, reclaims, scanned)
    requires CountsCoverReclaims(scanned, reclaims)
    requires k in keys && k in db.index && RootedEntries(db.index[k].slotList, db.roots, bound) != map[]
    ensures var rooted := RootedEntries(db.index[k].slotList, db.roots, bound);
      var newest := MaxOf(rooted.Keys);
      && StoredAt(scanned.index, k, newest) && Entry(scanned.index, k, newest) == Some(rooted[newest])
      && newest !in DeadSlots(scanned, reclaims)
      && forall s: Slot | s in rooted :: (s, k) in reclaims <==> s != newest
  {
    var rooted := RootedEntries(db.index[k].slotList, db.roots, bound);
    var newest := MaxOf(rooted.Keys);
    forall s: Slot | s in rooted
      ensures StoredAt(db.index, k, s) && (s, k) in reclaims <==> s != newest
    {
      assert Entry(db.index, k, s) == Some(rooted[s]);
      assert PurgeableIn(db, bound, k, s) <==> s != newest;
    }
    assert Entry(scanned.index, k, newest) == Entry(db.index, k, newest) == Some(rooted[newest]);
    AliveSlotSurvives(scanned, reclaims, k, newest);
  }

  lemma CandidateMatches(db: Db, keys: set<Pubkey>, bound: Option<Slot>, reclaims: set<Place>, scanned: Db, after: Db,
                         found: Candidates, purged: set<Place>, k: Pubkey)
    requires Consistent(db) && Flushed(db, bound)
    requires ScannedTo(db, keys, bound, reclaims, scanned) && ScanFound(db, keys, bound, found)
    requires Reclaimable(scanned, reclaims) && ReclaimedTo(scanned, reclaims, after)
    requires forall s: Slot, k: Pubkey ::
      (s, k) in purged <==> s in DeadSlots(scanned, reclaims) && k in scanned.storages[s].accounts
    requires k in found
    ensures MatchesOne(after, RefreshedInfo(after.index, found[k], k, purged, reclaims), bound, k)
  {
    var rooted := RootedEntries(db.index[k].slotList, db.roots, bound);
    var newest := MaxOf(rooted.Keys);
    NewestRootedStays(db, keys, bound, reclaims, scanned, k);
    SameSlotLists(scanned.index, after.index);
    RefreshedEntry(after, found[k], bound, reclaims, purged, k, newest);
    RefreshedRefCount(scanned, reclaims, after, found[k], purged, k);
  }

  lemma RefreshedEntry(after: Db, info: CleaningInfo, bound: Option<Slot>, reclaims: set<Place>, purged: set<Place>,
                       k: Pubkey, newest: Slot)
    requires newest in info.slotList && WithinBound(newest, bound) && info.slotList[newest].isZeroLamport
    requires forall s: Slot | s in info.slotList :: (s, k) in reclaims <==> s != newest
    requires (newest, k) !in purged
    requires StoredAt(after.index, k, newest) && Entry(after.index, k, newest) == Some(info.slotList[newest])
    ensures OnlyEntry(after, RefreshedInfo(after.index, info, k, purged, reclaims), bound, k, newest)
  {
    assert RefreshedInfo(after.index, info, k, purged, reclaims).slotList.Keys == {newest};
  }

  lemma RefreshedRefCount(
    scanned: Db, reclaims: set<Place>, after: Db, info: CleaningInfo, purged: set<Place>, k: Pubkey)
    requires RefCountsExact(scanned) && ReclaimedTo(scanned, reclaims, after) && k in scanned.index
    requires forall s: Slot, k: Pubkey ::
      (s, k) in purged <==> s in DeadSlots(scanned, reclaims) && k in scanned.storages[s].accounts
    requires info.refCount == scanned.index[k].refCount
    ensures RefreshedInfo(after.index, info, k, purged, reclaims).refCount == after.index[k].refCount
  {
    if SlotsAt(purged, k) == {} {
      UnpurgedReferences(scanned, DeadSlots(scanned, reclaims), purged, k);
    }
  }

  lemma UnpurgedReferences(db: Db, dead: set<Slot>, purged: set<Place>, k: Pubkey)
    requires dead <= db.storages.Keys
    requires forall s: Slot, k: Pubkey :: (s, k) in purged <==> s in dead && k in db.storages[s].accounts
    requires SlotsAt(purged, k) == {}
    ensures Stores(db.storages, k) - dead == Stores(db.storages, k)
  {
    forall s | s in Stores(db.storages, k) ensures s !in dead {
      assert (s, k) in purged ==> (s, k).0 in SlotsAt(purged, k);
    }
  }

  /** The index has at most one rooted version of `k` up to the bound. */
  ghost predicate OneRootedEntry(db: Db, bound: Option<Slot>, k: Pubkey) {
    forall s, t | RootedEntry(db, bound, k, s) && RootedEntry(db, bound, k, t) :: s == t
  }

  ghost predicate RootedEntry(db: Db, bound: Option<Slot>, k: Pubkey, s: Slot) {
    Entry(db.index, k, s).Some? && s in db.roots && WithinBound(s, bound)
  }

  /** The scan leaves no outdated version of a scanned key. */
  lemma OutdatedAreGone(db: Db, keys: set<Pubkey>, bound: Option<Slot>, reclaims: set<Place>, scanned: Db, after: Db,
                        k: Pubkey)
    requires Consistent(db) && Flushed(db, bound) && ScannedTo(db, keys, bound, reclaims, scanned)
    requires Reclaimable(scanned, reclaims) && ReclaimedTo(scanned, reclaims, after)
    requires k in keys
    ensures OneRootedEntry(after, bound, k)
  {
    SameSlotLists(scanned.index, after.index);
    if k in db.index {
      var rooted := RootedEntries(db.index[k].slotList, db.roots, bound);
      forall s | RootedEntry(after, bound, k, s) ensures rooted != map[] && s == MaxOf(rooted.Keys) {
        assert Entry(db.index, k, s).Some? && (s, k) !in reclaims;
        assert s in rooted;
        NewestRootedStays(db, keys, bound, reclaims, scanned, k);
      }
    }
  }

  lemma CandidateEntryIsRooted(after: Db, bound: Option<Slot>, candidates: Candidates, k: Pubkey, s: Slot)
    requires EntriesResolve(after) && RootsBounded(after)
    requires Matches(after, candidates, bound) && HasEntry(candidates, k, s)
    ensures ZeroRooted(after, bound, k, s)
  {
    assert StoredAt(after.index, k, s);
  }

  lemma ZeroRootedIsCandidate(db: Db, keys: set<Pubkey>, bound: Option<Slot>, reclaims: set<Place>, scanned: Db,
                              after: Db, k: Pubkey, s: Slot)
    requires Consistent(db) && Flushed(db, bound) && ScannedTo(db, keys, bound, reclaims, scanned)
    requires Reclaimable(scanned, reclaims) && ReclaimedTo(scanned, reclaims, after)
    requires k in keys && ZeroRooted(after, bound, k, s)
    ensures CandidateInfo(db, k, bound).slotList != map[]
  {
    SameSlotLists(scanned.index, after.index);
    assert Entry(after.index, k, s) == Entry(db.index, k, s) && (s, k) !in reclaims;
    var rooted := RootedEntries(db.index[k].slotList, db.roots, bound);
    assert s in rooted;
    NewestRootedStays(db, keys, bound, reclaims, scanned, k);
    assert s == MaxOf(rooted.Keys) && rooted[s].isZeroLamport;
  }

  lemma CandidatesAreExact(db: Db, keys: set<Pubkey>, bound: Option<Slot>, reclaims: set<Place>, scanned: Db, after: Db,
                           candidates: Candidates)
    requires Consistent(db) && Flushed(db, bound) && ScannedTo(db, keys, bound, reclaims, scanned)
    requires Reclaimable(scanned, reclaims) && ReclaimedTo(scanned, reclaims, after)
    requires Consistent(after) && Matches(after, candidates, bound)
    requires forall k :: k in candidates <==> k in keys && CandidateInfo(db, k, bound).slotList != map[]
    ensures CandidatesExact(after, keys, bound, candidates)
  {
    forall k: Pubkey, s: Slot ensures HasEntry(candidates, k, s) <==> k in keys && ZeroRooted(after, bound, k, s) {
      if HasEntry(candidates, k, s) {
        CandidateEntryIsRooted(after, bound, candidates, k, s);
      }
      if k in keys && ZeroRooted(after, bound, k, s) {
        ZeroRootedIsCandidate(db, keys, bound, reclaims, scanned, after, k, s);
        OutdatedAreGone(db, keys, bound, reclaims, scanned, after, k);
        OnlyRootedIsEntry(after, bound, candidates, k, s);
      }
    }
  }

  lemma OnlyRootedIsEntry(after: Db, bound: Option<Slot>, candidates: Candidates, k: Pubkey, s: Slot)
    requires EntriesResolve(after) && RootsBounded(after) && Matches(after, candidates, bound) && k in candidates
    requires OneRootedEntry(after, bound, k) && RootedEntry(after, bound, k, s)
    ensures HasEntry(candidates, k, s)
  {
    var t :| t in candidates[k].slotList;
    assert HasEntry(candidates, k, t);
    CandidateEntryIsRooted(after, bound, candidates, k, t);
  }
}
