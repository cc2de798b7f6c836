/** The invariant of the shared state in the load protocol, and its proof for every step:
    whatever the index points to is there. */
module LoadInvariant {
  import opened Types
  import opened LoadProtocol

  // ----- The invariant -----

  ghost predicate InCache(db: Shared, k: Pubkey, s: Slot) {
    && (k, s) in db.truth && s in db.cache && k in db.cache[s]
    && db.cache[s][k] == db.truth[(k, s)]
  }

  ghost predicate InStore(db: Shared, id: StoreId, k: Pubkey, s: Slot) {
    && (k, s) in db.truth && id in db.stores && k in db.stores[id]
    && db.stores[id][k] == db.truth[(k, s)]
  }

  /** The entry points to a place that holds the account last stored. */
  ghost predicate Resolves(db: Shared, k: Pubkey, s: Slot)
    requires (k, s) in db.index
  {
    match db.index[(k, s)]
    case Cached => InCache(db, k, s)
    case Stored(id) =>
      && InStore(db, id, k, s)
      && ((s in db.storeMap && db.storeMap[s] == id) || (s in db.shrinkMap && db.shrinkMap[s] == id))
  }

  /** Which place the entry points to, given the work on its slot. */
  ghost predicate EntryOk(db: Shared, k: Pubkey, s: Slot)
    requires (k, s) in db.index
  {
    && Resolves(db, k, s)
    && if s in db.work then
         match db.work[s]
         case Dropping(_) => db.index[(k, s)] == Cached
         case FlushIndexing(id, todo) => db.index[(k, s)] == if k in todo then Cached else Stored(id)
         case Shrinking(oldId, newId, todo, erase) =>
           db.index[(k, s)] == Stored(if k in todo || k in erase then oldId else newId)
         case Swapped(newId) => db.index[(k, s)] == Stored(newId)
         case Purging => true
       else true
  }

  ghost predicate At(places: map<Slot, StoreId>, s: Slot, id: StoreId) {
    s in places && places[s] == id
  }

  /** Which maps a slot is in, given the work on it. */
  ghost predicate SlotOk(db: Shared, s: Slot) {
    if s !in db.work then
      s !in db.shrinkMap && !(s in db.cache && s in db.storeMap)
    else match db.work[s]
      case Dropping(keep) =>
        && s in db.cache && s !in db.storeMap && s !in db.shrinkMap
        && forall k | k in keep :: k in db.cache[s] && (k, s) in db.index
      case FlushIndexing(id, todo) =>
        && s in db.cache && At(db.storeMap, s, id) && s !in db.shrinkMap
        && forall k | k in todo :: (k, s) in db.index && InStore(db, id, k, s)
      case Shrinking(oldId, newId, todo, erase) =>
        && s !in db.cache && At(db.storeMap, s, oldId) && At(db.shrinkMap, s, newId) && s in db.roots
        && (forall k | k in todo :: (k, s) in db.index && InStore(db, newId, k, s) && oldId != newId)
        && todo !! erase
      case Swapped(newId) => s !in db.cache && At(db.storeMap, s, newId) && At(db.shrinkMap, s, newId)
      case Purging => s !in db.shrinkMap && s !in db.roots && !(s in db.cache && s in db.storeMap)
  }

  predicate Erasing(db: Shared, k: Pubkey, s: Slot) {
    s in db.work && db.work[s].Shrinking? && k in db.work[s].erase
  }

  ghost predicate SharedInv(db: Shared) {
    && (forall id | id in db.stores :: id < db.nextId)
    && (forall s, k | s in db.cache && k in db.cache[s] :: InCache(db, k, s))
    && (forall s :: SlotOk(db, s))
    && (forall k, s | (k, s) in db.index :: EntryOk(db, k, s))
    && (forall k, s | Erasing(db, k, s) :: EraseOk(db, k, s))
  }

  // ----- What a step on one slot leaves alone -----

  ghost predicate SameAt<T>(before: map<Slot, T>, after: map<Slot, T>, s: Slot) {
    (s in before <==> s in after) && (s in before ==> before[s] == after[s])
  }

  ghost predicate SlotSame(db: Shared, db': Shared, s: Slot) {
    && SameAt(db.cache, db'.cache, s) && SameAt(db.storeMap, db'.storeMap, s)
    && SameAt(db.shrinkMap, db'.shrinkMap, s) && SameAt(db.work, db'.work, s)
  }

  /** Storages never change once created, and ids are not reused. */
  ghost predicate StoresGrow(db: Shared, db': Shared) {
    && db.nextId <= db'.nextId
    && (forall id | id in db.stores :: id in db'.stores && db'.stores[id] == db.stores[id])
    && (forall id | id in db'.stores :: id < db'.nextId)
  }

  /** The step changes nothing about other slots than `slot`, and adds entries only to slots that
      have them already or that lie above the roots. */
  ghost predicate OnlyAt(db: Shared, db': Shared, slot: Slot) {
    && StoresGrow(db, db') && db'.roots == db.roots
    && (forall s | s != slot :: SlotSame(db, db', s))
    && (forall k: Pubkey, s: Slot | s != slot ::
          ((k, s) in db'.index <==> (k, s) in db.index)
          && ((k, s) in db.index ==> db'.index[(k, s)] == db.index[(k, s)]))
    && (forall k: Pubkey, s: Slot | s != slot && (k, s) in db.truth ::
          (k, s) in db'.truth && db'.truth[(k, s)] == db.truth[(k, s)])
    && (forall k: Pubkey | (k, slot) in db'.index && (k, slot) !in db.index ::
          forall r | r in db.roots :: r < slot)
  }

  lemma OtherSlotKept(db: Shared, db': Shared, slot: Slot, s: Slot)
    requires SharedInv(db) && OnlyAt(db, db', slot) && s != slot
    ensures SlotOk(db', s)
  {
    assert SlotSame(db, db', s);
    assert SlotOk(db, s);
    StoredElsewhere(db, db', slot, s);
  }

  lemma OtherEntryKept(db: Shared, db': Shared, slot: Slot, k: Pubkey, s: Slot)
    requires SharedInv(db) && OnlyAt(db, db', slot) && s != slot && (k, s) in db'.index
    ensures EntryOk(db', k, s)
  {
    assert SlotSame(db, db', s);
    assert EntryOk(db, k, s);
  }

  lemma StoredElsewhere(db: Shared, db': Shared, slot: Slot, s: Slot)
    requires OnlyAt(db, db', slot) && s != slot
    ensures forall id, k | InStore(db, id, k, s) :: InStore(db', id, k, s)
  {
  }

  /** A step on one slot keeps the invariant if it keeps it for that slot. */
  lemma StepAt(db: Shared, db': Shared, slot: Slot)
    requires SharedInv(db) && OnlyAt(db, db', slot)
    requires SlotOk(db', slot)
    requires forall k | (k, slot) in db'.index :: EntryOk(db', k, slot)
    requires forall k | slot in db'.cache && k in db'.cache[slot] :: InCache(db', k, slot)
    requires forall k | Erasing(db', k, slot) :: EraseOk(db', k, slot)
    ensures SharedInv(db')
  {
    forall s | s != slot ensures SlotOk(db', s) {
      OtherSlotKept(db, db', slot, s);
    }
    forall k, s | s != slot && (k, s) in db'.index ensures EntryOk(db', k, s) {
      OtherEntryKept(db, db', slot, k, s);
    }
    forall s, k | s != slot && s in db'.cache && k in db'.cache[s] ensures InCache(db', k, s) {
      assert SlotSame(db, db', s);
      assert InCache(db, k, s);
    }
    forall k: Pubkey, s: Slot | Erasing(db', k, s) ensures EraseOk(db', k, s) {
      if s != slot {
        assert SlotSame(db, db', s);
        assert Erasing(db, k, s);
        forall p | p in db'.index && p.0 == k ensures s <= p.1 {
          assert (p.0, p.1) == p;
          if p.1 != slot { assert p in db.index; }
        }
      }
    }
  }

  // ----- Every step keeps the invariant -----

  lemma WriteCacheFrame(db: Shared, reader: Reader, k: Pubkey, s: Slot, account: Account)
    requires SharedInv(db) && CanWriteCache(db, reader, k, s)
    ensures OnlyAt(db, DoWriteCache(db, k, s, account), s)
  {
  }

  lemma WriteCacheKeeps(db: Shared, reader: Reader, k: Pubkey, s: Slot, account: Account)
    requires SharedInv(db) && CanWriteCache(db, reader, k, s)
    ensures SharedInv(DoWriteCache(db, k, s, account))
  {
    var db' := DoWriteCache(db, k, s, account);
    assert SlotOk(db, s);
    forall k' | (k', s) in db'.index ensures EntryOk(db', k', s) {
      assert EntryOk(db, k', s);
    }
    WriteCacheFrame(db, reader, k, s, account);
    StepAt(db, db', s);
  }

  lemma WriteIndexKeeps(db: Shared, reader: Reader, k: Pubkey, s: Slot)
    requires SharedInv(db) && CanWriteIndex(db, reader, k, s)
    ensures SharedInv(DoWriteIndex(db, k, s))
  {
    if (k, s) !in db.index {
      var db' := db.(index := db.index[(k, s) := Cached]);
      assert SlotOk(db, s);
      forall k' | (k', s) in db'.index ensures EntryOk(db', k', s) {
        assert k' == k || EntryOk(db, k', s);
      }
      StepAt(db, db', s);
    }
  }

  lemma FlushStartKeeps(db: Shared, s: Slot, keep: set<Pubkey>)
    requires SharedInv(db) && CanFlushStart(db, s, keep)
    ensures SharedInv(DoFlushStart(db, s, keep))
  {
    var db' := DoFlushStart(db, s, keep);
    assert SlotOk(db, s);
    forall k' | (k', s) in db'.index ensures EntryOk(db', k', s) {
      if (k', s) in db.index { assert EntryOk(db, k', s); }
    }
    StepAt(db, db', s);
  }

  /** Dropping an entry that no work on its slot still needs: an outdated cached or stored version, a stored
      one of a slot that was passed over by the roots, or one that is purged. */
  lemma RemoveEntryKeeps(db: Shared, k: Pubkey, s: Slot)
    requires SharedInv(db)
    requires s in db.work ==> db.work[s].Purging? || (db.work[s].Dropping? && k !in db.work[s].keep)
    ensures SharedInv(RemoveEntry(db, k, s))
  {
    var db' := RemoveEntry(db, k, s);
    assert SlotOk(db, s);
    forall k' | (k', s) in db'.index ensures EntryOk(db', k', s) {
      if (k', s) in db.index { assert EntryOk(db, k', s); }
    }
    StepAt(db, db', s);
  }

  lemma FlushWriteFrame(db: Shared, s: Slot)
    requires SharedInv(db) && CanFlushWrite(db, s)
    ensures OnlyAt(db, DoFlushWrite(db, s), s)
  {
  }

  lemma FlushWriteKeeps(db: Shared, s: Slot)
    requires SharedInv(db) && CanFlushWrite(db, s)
    ensures SharedInv(DoFlushWrite(db, s))
  {
    var db' := DoFlushWrite(db, s);
    assert SlotOk(db, s);
    forall k' | k' in db.work[s].keep ensures k' in db'.work[s].todo && InStore(db', db.nextId, k', s) {
      assert InCache(db, k', s);
    }
    forall k' | (k', s) in db'.index ensures EntryOk(db', k', s) {
      assert EntryOk(db, k', s);
    }
    FlushWriteFrame(db, s);
    StepAt(db, db', s);
  }

  lemma FlushIndexKeeps(db: Shared, k: Pubkey, s: Slot)
    requires SharedInv(db) && CanFlushIndex(db, k, s)
    ensures SharedInv(DoFlushIndex(db, k, s))
  {
    var db' := DoFlushIndex(db, k, s);
    assert SlotOk(db, s);
    forall k' | (k', s) in db'.index ensures EntryOk(db', k', s) {
      if (k', s) in db.index { assert EntryOk(db, k', s); }
    }
    StepAt(db, db', s);
  }

  lemma FlushEndKeeps(db: Shared, s: Slot)
    requires SharedInv(db) && CanFlushEnd(db, s)
    ensures SharedInv(DoFlushEnd(db, s))
  {
    var db' := DoFlushEnd(db, s);
    assert SlotOk(db, s);
    forall k' | (k', s) in db'.index ensures EntryOk(db', k', s) {
      if (k', s) in db.index { assert EntryOk(db, k', s); }
    }
    StepAt(db, db', s);
  }

  lemma ShrinkStartFrame(db: Shared, s: Slot, alive: set<Pubkey>, erase: set<Pubkey>)
    requires SharedInv(db) && CanShrinkStart(db, s, alive, erase)
    ensures OnlyAt(db, DoShrinkStart(db, s, alive, erase), s)
  {
  }

  lemma ShrinkStartKeeps(db: Shared, s: Slot, alive: set<Pubkey>, erase: set<Pubkey>)
    requires SharedInv(db) && CanShrinkStart(db, s, alive, erase)
    ensures SharedInv(DoShrinkStart(db, s, alive, erase))
  {
    var db' := DoShrinkStart(db, s, alive, erase);
    assert SlotOk(db, s);
    forall k' | (k', s) in db'.index ensures EntryOk(db', k', s) {
      assert EntryOk(db, k', s);
    }
    forall k' | k' in alive ensures InStore(db', db.nextId, k', s) {
      assert EntryOk(db, k', s);
    }
    ShrinkStartFrame(db, s, alive, erase);
    StepAt(db, db', s);
  }

  lemma ShrinkIndexKeeps(db: Shared, k: Pubkey, s: Slot)
    requires SharedInv(db) && CanShrinkIndex(db, k, s)
    ensures SharedInv(DoShrinkIndex(db, k, s))
  {
    var db' := DoShrinkIndex(db, k, s);
    assert SlotOk(db, s);
    forall k' | (k', s) in db'.index ensures EntryOk(db', k', s) {
      if (k', s) in db.index { assert EntryOk(db, k', s); }
    }
    forall k' | Erasing(db', k', s) ensures EraseOk(db', k', s) {
      assert Erasing(db, k', s);
    }
    StepAt(db, db', s);
  }

  lemma ShrinkEraseKeeps(db: Shared, k: Pubkey, s: Slot)
    requires SharedInv(db) && CanShrinkErase(db, k, s)
    ensures SharedInv(DoShrinkErase(db, k, s))
  {
    var db' := DoShrinkErase(db, k, s);
    assert SlotOk(db, s);
    forall k' | (k', s) in db'.index ensures EntryOk(db', k', s) {
      if (k', s) in db.index { assert EntryOk(db, k', s); }
    }
    forall k' | Erasing(db', k', s) ensures EraseOk(db', k', s) {
      assert Erasing(db, k', s);
    }
    StepAt(db, db', s);
  }

  lemma ShrinkSwapKeeps(db: Shared, s: Slot)
    requires SharedInv(db) && CanShrinkSwap(db, s)
    ensures SharedInv(DoShrinkSwap(db, s))
  {
    var db' := DoShrinkSwap(db, s);
    assert SlotOk(db, s);
    forall k' | (k', s) in db'.index ensures EntryOk(db', k', s) {
      if (k', s) in db.index { assert EntryOk(db, k', s); }
    }
    StepAt(db, db', s);
  }

  lemma ShrinkEndKeeps(db: Shared, s: Slot)
    requires SharedInv(db) && CanShrinkEnd(db, s)
    ensures SharedInv(DoShrinkEnd(db, s))
  {
    var db' := DoShrinkEnd(db, s);
    assert SlotOk(db, s);
    forall k' | (k', s) in db'.index ensures EntryOk(db', k', s) {
      if (k', s) in db.index { assert EntryOk(db, k', s); }
    }
    StepAt(db, db', s);
  }

  lemma DropStoreKeeps(db: Shared, s: Slot)
    requires SharedInv(db) && CanDropStore(db, s)
    ensures SharedInv(DoDropStore(db, s))
  {
    var db' := DoDropStore(db, s);
    assert SlotOk(db, s);
    StepAt(db, db', s);
  }

  lemma PurgeStartKeeps(db: Shared, reader: Reader, s: Slot)
    requires SharedInv(db) && CanPurgeStart(db, reader, s)
    ensures SharedInv(DoPurgeStart(db, s))
  {
    var db' := DoPurgeStart(db, s);
    assert SlotOk(db, s);
    forall k' | (k', s) in db'.index ensures EntryOk(db', k', s) {
      if (k', s) in db.index { assert EntryOk(db, k', s); }
    }
    StepAt(db, db', s);
  }

  lemma PurgeEndKeeps(db: Shared, s: Slot)
    requires SharedInv(db) && CanPurgeEnd(db, s)
    ensures SharedInv(DoPurgeEnd(db, s))
  {
    var db' := DoPurgeEnd(db, s);
    assert SlotOk(db, s);
    StepAt(db, db', s);
  }

  lemma CleanZeroKeeps(db: Shared, k: Pubkey, bound: Slot)
    requires SharedInv(db) && CanCleanZero(db, k, bound)
    ensures SharedInv(DoCleanZero(db, k, bound))
  {
    var db' := DoCleanZero(db, k, bound);
    forall s ensures SlotOk(db', s) {
      assert SlotOk(db, s);
    }
    forall k', s | (k', s) in db'.index ensures EntryOk(db', k', s) {
      assert EntryOk(db, k', s);
    }
    forall k': Pubkey, s: Slot | Erasing(db', k', s) ensures EraseOk(db', k', s) {
      assert Erasing(db, k', s);
    }
    forall s, k' | s in db'.cache && k' in db'.cache[s] ensures InCache(db', k', s) {
      assert InCache(db, k', s);
    }
  }

  lemma AddRootKeeps(db: Shared, reader: Reader, root: Slot)
    requires SharedInv(db) && CanAddRoot(db, reader, root)
    ensures SharedInv(DoAddRoot(db, root))
  {
    var db' := DoAddRoot(db, root);
    forall s ensures SlotOk(db', s) {
      assert SlotOk(db, s);
    }
    forall k', s | (k', s) in db'.index ensures EntryOk(db', k', s) {
      assert EntryOk(db, k', s);
    }
    forall k': Pubkey, s: Slot | Erasing(db', k', s) ensures EraseOk(db', k', s) {
      assert Erasing(db, k', s);
    }
    forall s, k' | s in db'.cache && k' in db'.cache[s] ensures InCache(db', k', s) {
      assert InCache(db, k', s);
    }
  }

  /** Every step of the writers and of background work keeps the invariant. */
  lemma StepKeeps(db: Shared, reader: Reader, step: Step)
    requires SharedInv(db) && Enabled(db, reader, step)
    ensures SharedInv(Apply(db, reader, step))
  {
    match step
    case WriteCache(k, s, account) => WriteCacheKeeps(db, reader, k, s, account);
    case WriteIndex(k, s) => WriteIndexKeeps(db, reader, k, s);
    case FlushStart(s, keep) => FlushStartKeeps(db, s, keep);
    case FlushDrop(k, s) => RemoveEntryKeeps(db, k, s);
    case FlushWrite(s) => FlushWriteKeeps(db, s);
    case FlushIndex(k, s) => FlushIndexKeeps(db, k, s);
    case FlushEnd(s) => FlushEndKeeps(db, s);
    case ShrinkStart(s, alive, erase) => ShrinkStartKeeps(db, s, alive, erase);
    case ShrinkIndex(k, s) => ShrinkIndexKeeps(db, k, s);
    case ShrinkErase(k, s) => ShrinkEraseKeeps(db, k, s);
    case ShrinkSwap(s) => ShrinkSwapKeeps(db, s);
    case ShrinkEnd(s) => ShrinkEndKeeps(db, s);
    case CleanOutdated(k, s) => RemoveEntryKeeps(db, k, s);
    case CleanUnrooted(k, s) => RemoveEntryKeeps(db, k, s);
    case CleanZero(k, bound) => CleanZeroKeeps(db, k, bound);
    case DropStore(s) => DropStoreKeeps(db, s);
    case PurgeStart(s) => PurgeStartKeeps(db, reader, s);
    case PurgeIndex(k, s) => RemoveEntryKeeps(db, k, s);
    case PurgeEnd(s) => PurgeEndKeeps(db, s);
    case AddRoot(s) => AddRootKeeps(db, reader, s);
  }
}
