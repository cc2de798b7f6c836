/** Background work that has begun on a slot can always be finished by its own steps, whatever the load
    does: nothing that the load relies on has to give way first. */
module LoadProgress {
  import opened Types
  import opened Rebuild
  import opened LoadProtocol

  /** The keys that the index has at slot `s`. */
  ghost function KeysAt(db: Shared, s: Slot): set<Pubkey> { set p | p in db.index && p.1 == s :: p.0 }

  /** The keys that a flush of the slot still has to drop. */
  ghost function ToDrop(db: Shared, s: Slot): set<Pubkey>
    requires s in db.work && db.work[s].Dropping?
  {
    KeysAt(db, s) - db.work[s].keep
  }

  /** What a flush drops has a newer version in a later root, as the flush starts with the latest root. */
  ghost predicate DropsOutdated(db: Shared, s: Slot) {
    s in db.work && db.work[s].Dropping? ==> forall k | k in ToDrop(db, s) :: Outdated(db, k, s)
  }

  /** How many kinds of steps the work on the slot has left. */
  ghost function Phase(db: Shared, s: Slot): nat {
    if s !in db.work then 0
    else match db.work[s]
      case Dropping(_) => 2
      case FlushIndexing(_, _) => 1
      case Shrinking(_, _, _, _) => 2
      case Swapped(_) => 1
      case Purging => 1
  }

  /** How many steps of the present kind are left. */
  ghost function Left(db: Shared, s: Slot): nat {
    if s !in db.work then 0
    else match db.work[s]
      case Dropping(_) => |ToDrop(db, s)|
      case FlushIndexing(_, todo) => |todo|
      case Shrinking(_, _, todo, erase) => |todo| + |erase|
      case Swapped(_) => 0
      case Purging => |KeysAt(db, s)|
  }

  /** The next step of the work on slot `s`. */
  ghost predicate OwnStep(step: Step, s: Slot) {
    match step
    case FlushDrop(_, t) => t == s
    case FlushWrite(t) => t == s
    case FlushIndex(_, t) => t == s
    case FlushEnd(t) => t == s
    case ShrinkIndex(_, t) => t == s
    case ShrinkErase(_, t) => t == s
    case ShrinkSwap(t) => t == s
    case ShrinkEnd(t) => t == s
    case PurgeIndex(_, t) => t == s
    case PurgeEnd(t) => t == s
    case _ => false
  }

  /** One step of the work on slot `s` leads from `db` to `after`. */
  ghost predicate Works(db: Shared, reader: Reader, s: Slot, after: Shared) {
    exists step :: OwnStep(step, s) && Enabled(db, reader, step) && after == Apply(db, reader, step)
  }

  lemma RemovedKey(db: Shared, k: Pubkey, s: Slot)
    requires (k, s) in db.index
    ensures KeysAt(RemoveEntry(db, k, s), s) == KeysAt(db, s) - {k} && k in KeysAt(db, s)
  {
    var after := RemoveEntry(db, k, s);
    forall j ensures j in KeysAt(after, s) <==> j in KeysAt(db, s) && j != k {
      if j in KeysAt(db, s) { assert (j, s) in db.index; }
      if j in KeysAt(db, s) && j != k { assert (j, s) in after.index; }
    }
    assert (k, s).0 in KeysAt(db, s);
  }

  lemma NothingAt(db: Shared, s: Slot)
    ensures KeysAt(db, s) == {} <==> NoEntries(db, s)
  {
    forall p | p in db.index && p.1 == s ensures p.0 in KeysAt(db, s) {}
  }

  lemma DropNext(db: Shared, reader: Reader, s: Slot) returns (after: Shared)
    requires s in db.work && db.work[s].Dropping? && DropsOutdated(db, s) && ToDrop(db, s) != {}
    ensures Works(db, reader, s, after) && after.work == db.work && DropsOutdated(after, s)
    ensures |ToDrop(after, s)| < |ToDrop(db, s)|
  {
    var k :| k in ToDrop(db, s);
    assert (k, s) in db.index;
    assert OwnStep(FlushDrop(k, s), s) && Enabled(db, reader, FlushDrop(k, s));
    after := Apply(db, reader, FlushDrop(k, s));
    RemovedKey(db, k, s);
    assert ToDrop(after, s) == ToDrop(db, s) - {k};
    forall j | j in ToDrop(after, s) ensures Outdated(after, j, s) {
      var t :| s < t && t in db.roots && (j, t) in db.index;
      assert (j, t) in after.index;
    }
  }

  lemma DroppedAll(db: Shared, reader: Reader, s: Slot) returns (after: Shared)
    requires s in db.work && db.work[s].Dropping? && ToDrop(db, s) == {}
    ensures Works(db, reader, s, after) && (s in after.work ==> after.work[s].FlushIndexing?)
  {
    forall p | p in db.index && p.1 == s ensures p.0 in db.work[s].keep {
      assert p.0 in KeysAt(db, s) && p.0 !in ToDrop(db, s);
    }
    if db.work[s].keep == {} {
      NothingAt(db, s);
      assert OwnStep(FlushEnd(s), s) && Enabled(db, reader, FlushEnd(s));
      after := Apply(db, reader, FlushEnd(s));
    } else {
      assert OwnStep(FlushWrite(s), s) && Enabled(db, reader, FlushWrite(s));
      after := Apply(db, reader, FlushWrite(s));
    }
  }

  lemma FlushNext(db: Shared, reader: Reader, s: Slot) returns (after: Shared)
    requires s in db.work && db.work[s].FlushIndexing?
    ensures Works(db, reader, s, after)
    ensures s in after.work ==> after.work[s].FlushIndexing? && |after.work[s].todo| < |db.work[s].todo|
  {
    if db.work[s].todo == {} {
      assert OwnStep(FlushEnd(s), s) && Enabled(db, reader, FlushEnd(s));
      after := Apply(db, reader, FlushEnd(s));
    } else {
      var k :| k in db.work[s].todo;
      assert OwnStep(FlushIndex(k, s), s) && Enabled(db, reader, FlushIndex(k, s));
      after := Apply(db, reader, FlushIndex(k, s));
    }
  }

  lemma ShrinkIndexNext(db: Shared, reader: Reader, s: Slot, k: Pubkey) returns (after: Shared)
    requires s in db.work && db.work[s].Shrinking? && k in db.work[s].todo
    ensures Works(db, reader, s, after) && s in after.work && after.work[s].Shrinking?
    ensures after.work[s].todo == db.work[s].todo - {k} && after.work[s].erase == db.work[s].erase
  {
    assert OwnStep(ShrinkIndex(k, s), s) && Enabled(db, reader, ShrinkIndex(k, s));
    after := Apply(db, reader, ShrinkIndex(k, s));
  }

  lemma ShrinkEraseNext(db: Shared, reader: Reader, s: Slot, k: Pubkey) returns (after: Shared)
    requires s in db.work && db.work[s].Shrinking? && k in db.work[s].erase
    ensures Works(db, reader, s, after) && s in after.work && after.work[s].Shrinking?
    ensures after.work[s].todo == db.work[s].todo && after.work[s].erase == db.work[s].erase - {k}
  {
    assert OwnStep(ShrinkErase(k, s), s) && Enabled(db, reader, ShrinkErase(k, s));
    after := Apply(db, reader, ShrinkErase(k, s));
  }

  lemma ShrinkSwapNext(db: Shared, reader: Reader, s: Slot) returns (after: Shared)
    requires s in db.work && db.work[s].Shrinking? && db.work[s].todo == {} && db.work[s].erase == {}
    ensures Works(db, reader, s, after) && s in after.work && after.work[s].Swapped?
  {
    assert OwnStep(ShrinkSwap(s), s) && Enabled(db, reader, ShrinkSwap(s));
    after := Apply(db, reader, ShrinkSwap(s));
  }

  lemma ShrinkNext(db: Shared, reader: Reader, s: Slot) returns (after: Shared)
    requires s in db.work && db.work[s].Shrinking?
    ensures Works(db, reader, s, after) && s in after.work
    ensures after.work[s].Swapped? || (after.work[s].Shrinking? && Left(after, s) < Left(db, s))
  {
    if k :| k in db.work[s].todo {
      after := ShrinkIndexNext(db, reader, s, k);
    } else if k :| k in db.work[s].erase {
      after := ShrinkEraseNext(db, reader, s, k);
    } else {
      after := ShrinkSwapNext(db, reader, s);
    }
  }

  lemma SwappedNext(db: Shared, reader: Reader, s: Slot) returns (after: Shared)
    requires s in db.work && db.work[s].Swapped?
    ensures Works(db, reader, s, after) && s !in after.work
  {
    assert OwnStep(ShrinkEnd(s), s) && Enabled(db, reader, ShrinkEnd(s));
    after := Apply(db, reader, ShrinkEnd(s));
  }

  lemma PurgeNext(db: Shared, reader: Reader, s: Slot) returns (after: Shared)
    requires s in db.work && db.work[s].Purging?
    ensures Works(db, reader, s, after)
    ensures s in after.work ==> after.work[s].Purging? && |KeysAt(after, s)| < |KeysAt(db, s)|
  {
    if k :| k in KeysAt(db, s) {
      assert (k, s) in db.index;
      assert OwnStep(PurgeIndex(k, s), s) && Enabled(db, reader, PurgeIndex(k, s));
      after := Apply(db, reader, PurgeIndex(k, s));
      RemovedKey(db, k, s);
    } else {
      NothingAt(db, s);
      assert OwnStep(PurgeEnd(s), s) && Enabled(db, reader, PurgeEnd(s));
      after := Apply(db, reader, PurgeEnd(s));
    }
  }

  /** There is a next step of the work on the slot, and it brings the work closer to its end. */
  lemma WorkGoesOn(db: Shared, reader: Reader, s: Slot) returns (after: Shared)
    requires s in db.work && DropsOutdated(db, s)
    ensures Works(db, reader, s, after) && DropsOutdated(after, s)
    ensures Phase(after, s) < Phase(db, s) || (Phase(after, s) == Phase(db, s) && Left(after, s) < Left(db, s))
  {
    match db.work[s]
    case Dropping(_) =>
      if ToDrop(db, s) != {} { after := DropNext(db, reader, s); } else { after := DroppedAll(db, reader, s); }
    case FlushIndexing(_, _) => after := FlushNext(db, reader, s);
    case Shrinking(_, _, _, _) => after := ShrinkNext(db, reader, s);
    case Swapped(_) => after := SwappedNext(db, reader, s);
    case Purging => after := PurgeNext(db, reader, s);
  }

  /** A flush, shrink or purge that has begun can be finished by its own steps, one after the other, while
      the load stands still anywhere. */
  lemma {:induction false} WorkCanFinish(db: Shared, reader: Reader, s: Slot) returns (dbs: seq<Shared>)
    requires DropsOutdated(db, s)
    ensures |dbs| > 0 && dbs[0] == db && s !in dbs[|dbs| - 1].work
    ensures forall i | 0 < i < |dbs| :: Works(dbs[i - 1], reader, s, dbs[i])
    decreases Phase(db, s), Left(db, s)
  {
    dbs := [db];
    if s in db.work {
      var after := WorkGoesOn(db, reader, s);
      var rest := WorkCanFinish(after, reader, s);
      dbs := [db] + rest;
      forall i | 0 < i < |dbs| ensures Works(dbs[i - 1], reader, s, dbs[i]) {
        if i > 1 { assert Works(rest[i - 2], reader, s, rest[i - 1]); }
      }
    }
  }

  /** The flush still has to drop a key of which no later root has a version. */
  ghost predicate Stuck(db: Shared, s: Slot, k: Pubkey) {
    s in db.work && db.work[s].Dropping? && k in ToDrop(db, s) && !Outdated(db, k, s)
  }

  lemma StuckStays(db: Shared, reader: Reader, s: Slot, after: Shared, k: Pubkey)
    requires Stuck(db, s, k) && Works(db, reader, s, after)
    ensures Stuck(after, s, k)
  {
    var step :| OwnStep(step, s) && Enabled(db, reader, step) && after == Apply(db, reader, step);
    assert (k, s) in db.index && (k, s).1 == s;
    assert step.FlushDrop? && step.k != k;
    assert (k, s) in after.index;
    assert (k, s).0 in KeysAt(after, s);
  }

  /** The condition is exact: its own steps never finish a flush that would drop a key's latest version. */
  lemma {:induction false} StuckNeverFinishes(dbs: seq<Shared>, reader: Reader, s: Slot, k: Pubkey, i: nat)
    requires i < |dbs| && Stuck(dbs[0], s, k)
    requires forall n | 0 < n < |dbs| :: Works(dbs[n - 1], reader, s, dbs[n])
    ensures s in dbs[i].work && Stuck(dbs[i], s, k)
  {
    if i > 0 {
      StuckNeverFinishes(dbs, reader, s, k, i - 1);
      StuckStays(dbs[i - 1], reader, s, dbs[i], k);
    }
  }

  /** Cleaning a zero-lamport key takes exactly its rooted entries up to the bound out of the index. */
  lemma CleanZeroTakes(db: Shared, reader: Reader, k: Pubkey, bound: Slot, p: Place)
    requires Enabled(db, reader, CleanZero(k, bound))
    ensures p in Apply(db, reader, CleanZero(k, bound)).index <==>
      p in db.index && !(p.0 == k && p.1 in db.roots && p.1 <= bound)
  {
    if p.0 == k && p.1 in db.roots && p.1 <= bound && p in db.index {
      assert p == (k, p.1) && p.1 in RootedUpTo(db, k, bound);
    }
  }

  /** Once no entry refers to a slot that nobody works on, its storage can go; loads that hold it keep it. */
  lemma UnreferencedStoreCanGo(db: Shared, reader: Reader, s: Slot)
    requires s in db.storeMap && s !in db.work && s !in db.cache
    requires forall p | p in db.index :: p.1 != s
    ensures Enabled(db, reader, DropStore(s))
    ensures var after := Apply(db, reader, DropStore(s));
      after.storeMap == db.storeMap - {s} && after.stores == db.stores && after.index == db.index
  {
  }
}
