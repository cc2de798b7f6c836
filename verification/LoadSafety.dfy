/** What a load sees while the shared state changes under it: it never misses the cache twice, never
    finds the same place empty twice, and returns the latest version that was visible when it began. */
module LoadSafety {
  import opened Types
  import opened Rebuild
  import opened LoadProtocol
  import opened LoadInvariant

  // ----- The invariant of a load -----

  /** The slots that the load sees are still the ones it may rely on. */
  ghost predicate ViewOk(db: Shared, visible: set<Slot>) {
    CanBegin(db, visible)
  }

  /** `target` is still the latest visible version of the key; it may have left the index only as a
      zero-lamport account with no other version in sight. */
  ghost predicate TargetOk(db: Shared, k: Pubkey, visible: set<Slot>, target: Option<Slot>, expected: Option<Account>) {
    && (target.None? ==> expected.None? && forall s | s in visible :: (k, s) !in db.index)
    && (target.Some? ==>
          var m := target.value;
          && m in visible && (k, m) in db.truth && expected == Some(db.truth[(k, m)])
          && (forall s | s in visible && (k, s) in db.index :: s <= m)
          && ((k, m) !in db.index ==>
                expected.value.IsZeroLamport() && forall s | s in visible :: (k, s) !in db.index))
  }

  /** The index entry does not point to the given place. */
  predicate NotAt(db: Shared, k: Pubkey, s: Slot, place: Location) {
    (k, s) in db.index ==> db.index[(k, s)] != place
  }

  /** The load was sent to storage `id`, which holds what it looks for. */
  ghost predicate SentTo(db: Shared, k: Pubkey, target: Option<Slot>, slot: Slot, id: StoreId) {
    target == Some(slot) && InStore(db, id, k, slot) && !Pending(db, k, slot, id)
  }

  /** The result of a load: the expected account, or nothing when that account has zero lamports. */
  predicate Answers(expected: Option<Account>, result: Option<Account>) {
    result == expected || (result.None? && expected.Some? && expected.value.IsZeroLamport())
  }

  ghost predicate StageOk(db: Shared, k: Pubkey, target: Option<Slot>, expected: Option<Account>, stage: Stage) {
    match stage
    case ReadIndex(None) => true
    case ReadIndex(Some(failed)) =>
      && target == Some(failed.0) && NotAt(db, k, failed.0, failed.1)
      && (failed.1.Stored? ==> failed.1.id in db.stores && !Pending(db, k, failed.0, failed.1.id))
    case LookCache(slot) => target == Some(slot)
    case LookMap(slot, id) => SentTo(db, k, target, slot, id)
    case LookShrinkMap(slot, id) => SentTo(db, k, target, slot, id)
    case LookMapAgain(slot, id) =>
      && SentTo(db, k, target, slot, id) && !At(db.shrinkMap, slot, id)
      && (NotAt(db, k, slot, Stored(id)) || At(db.storeMap, slot, id))
    case Done(result) => Answers(expected, result)
  }

  /** After a miss in the cache the entry is no longer cached. */
  ghost predicate MissesOk(db: Shared, k: Pubkey, target: Option<Slot>, misses: nat, stage: Stage) {
    && misses <= 1
    && (misses == 1 ==> target.Some? && NotAt(db, k, target.value, Cached) && !stage.LookCache?)
  }

  /** The storage has left both maps: its shrink is finished or the store was removed. */
  ghost predicate Retired(db: Shared, slot: Slot, id: StoreId) {
    id in db.stores && !At(db.storeMap, slot, id) && !At(db.shrinkMap, slot, id)
  }

  /** The storages that the load found gone are retired, and it is not on its way to one of them. */
  ghost predicate TriedOk(db: Shared, target: Option<Slot>, tried: set<StoreId>, stage: Stage) {
    && (tried != {} ==> target.Some?)
    && (forall id | id in tried :: Retired(db, target.value, id))
    && (stage.LookMap? || stage.LookShrinkMap? || stage.LookMapAgain? ==> stage.id !in tried)
  }

  /** How far an attempt of the load has come. */
  function Rank(stage: Stage): nat {
    match stage
    case ReadIndex(_) => 0
    case LookCache(_) => 1
    case LookMap(_, _) => 1
    case LookShrinkMap(_, _) => 2
    case LookMapAgain(_, _) => 3
    case Done(_) => 4
  }

  /** Every attempt takes at most four steps, and every attempt but the first follows a miss of the cache
      or a storage that was found gone. */
  predicate StepsOk(reader: Reader)
    requires reader.Reading?
  {
    reader.steps <= 4 * (reader.misses + |reader.tried|) + Rank(reader.stage)
  }

  ghost predicate ReaderInv(db: Shared, reader: Reader) {
    reader.Reading? ==>
      && ViewOk(db, reader.visible)
      && TargetOk(db, reader.key, reader.visible, reader.target, reader.expected)
      && StageOk(db, reader.key, reader.target, reader.expected, reader.stage)
      && MissesOk(db, reader.key, reader.target, reader.misses, reader.stage)
      && TriedOk(db, reader.target, reader.tried, reader.stage)
      && StepsOk(reader)
  }

  // ----- The load's own steps -----

  lemma LatestIsMax(db: Shared, k: Pubkey, visible: set<Slot>)
    ensures var latest := Latest(db, k, visible);
      && (latest.None? <==> forall s | s in visible :: (k, s) !in db.index)
      && (latest.Some? ==>
            && latest.value in visible && (k, latest.value) in db.index
            && forall s | s in visible && (k, s) in db.index :: s <= latest.value)
  {
    var entries := Entries(db, k, visible);
    if entries == {} {
      forall s | s in visible ensures (k, s) !in db.index {
        assert s !in entries;
      }
    } else {
      var m := MaxOf(entries);
      assert m in entries;
      forall s | s in visible && (k, s) in db.index ensures s <= m {
        assert s in entries;
      }
    }
  }

  lemma BeginKeeps(db: Shared, k: Pubkey, visible: set<Slot>)
    requires SharedInv(db) && CanBegin(db, visible)
    ensures ReaderInv(db, Begin(db, k, visible))
  {
    LatestIsMax(db, k, visible);
    var target := Latest(db, k, visible);
    if target.Some? {
      assert EntryOk(db, k, target.value);
    }
  }

  /** While the target is in the index, the index sends the load to the target. */
  lemma LatestIsTarget(db: Shared, k: Pubkey, visible: set<Slot>, target: Option<Slot>, expected: Option<Account>)
    requires TargetOk(db, k, visible, target, expected)
    ensures Latest(db, k, visible).Some? ==> Latest(db, k, visible) == target
    ensures Latest(db, k, visible).None? ==> Answers(expected, None)
  {
    LatestIsMax(db, k, visible);
  }

  lemma ReadIndexKeeps(db: Shared, reader: Reader)
    requires SharedInv(db) && ReaderInv(db, reader) && reader.Reading? && reader.stage.ReadIndex?
    ensures ReaderInv(db, Advance(db, reader))
  {
    var k := reader.key;
    LatestIsTarget(db, k, reader.visible, reader.target, reader.expected);
    LatestIsMax(db, k, reader.visible);
    var latest := Latest(db, k, reader.visible);
    if latest.Some? {
      assert EntryOk(db, k, latest.value);
      assert SlotOk(db, latest.value);
    }
  }

  lemma LookCacheKeeps(db: Shared, reader: Reader)
    requires SharedInv(db) && ReaderInv(db, reader) && reader.Reading? && reader.stage.LookCache?
    ensures ReaderInv(db, Advance(db, reader))
  {
    var k, slot := reader.key, reader.stage.slot;
    if (k, slot) in db.index {
      assert EntryOk(db, k, slot);
    }
    if slot in db.cache && k in db.cache[slot] {
      assert InCache(db, k, slot);
    }
  }

  lemma LookStoreKeeps(db: Shared, reader: Reader)
    requires SharedInv(db) && ReaderInv(db, reader) && reader.Reading?
    requires reader.stage.LookMap? || reader.stage.LookShrinkMap? || reader.stage.LookMapAgain?
    ensures ReaderInv(db, Advance(db, reader))
  {
    var k, slot := reader.key, reader.stage.slot;
    if (k, slot) in db.index {
      assert EntryOk(db, k, slot);
    }
  }

  // ----- Steps of the others -----

  /** What a step does to the version of the key in one visible slot. */
  ghost predicate MildAt(db: Shared, db': Shared, k: Pubkey, s: Slot) {
    && ((k, s) in db.truth ==> (k, s) in db'.truth && db'.truth[(k, s)] == db.truth[(k, s)])
    && ((k, s) in db'.index ==>
          && (k, s) in db.index
          && (db'.index[(k, s)] == db.index[(k, s)]
              || (db'.index[(k, s)].Stored? && Pending(db, k, s, db'.index[(k, s)].id))))
    && (forall id | Pending(db', k, s, id) :: Pending(db, k, s, id) || id !in db.stores)
    && (forall id | At(db.storeMap, s, id) :: NotAt(db', k, s, Stored(id)) || At(db'.storeMap, s, id))
    && (s in db'.work && db'.work[s].Purging? ==> s in db.work && db.work[s].Purging?)
  }

  /** Only new storages enter the shrink map, and only new or shrunk ones the map of storages. */
  ghost predicate MapsMild(db: Shared, db': Shared, s: Slot) {
    && (forall id | At(db'.shrinkMap, s, id) :: At(db.shrinkMap, s, id) || id !in db.stores)
    && (forall id | At(db'.storeMap, s, id) :: At(db.storeMap, s, id) || At(db.shrinkMap, s, id) || id !in db.stores)
  }

  /** An entry leaves the index only for a newer version, or as the oldest and with zero lamports. */
  ghost predicate LeavesOk(db: Shared, db': Shared, k: Pubkey, visible: set<Slot>, s: Slot) {
    (k, s) in db.index && (k, s) !in db'.index ==>
      || (exists t :: t in visible && s < t && (k, t) in db.index)
      || ((k, s) in db.truth && db.truth[(k, s)].IsZeroLamport()
          && forall t | t in visible && (k, t) in db'.index :: s < t)
  }

  ghost predicate Mild(db: Shared, db': Shared, k: Pubkey, visible: set<Slot>) {
    && StoresGrow(db, db') && db'.roots == db.roots
    && (forall s | s in visible :: MildAt(db, db', k, s))
    && (forall s | s in visible :: MapsMild(db, db', s))
    && (forall s | s in visible :: LeavesOk(db, db', k, visible, s))
  }

  lemma MildKeepsTarget(
    db: Shared, db': Shared, k: Pubkey, visible: set<Slot>, target: Option<Slot>, expected: Option<Account>)
    requires TargetOk(db, k, visible, target, expected) && Mild(db, db', k, visible)
    ensures TargetOk(db', k, visible, target, expected)
  {
    forall s | s in visible && (k, s) in db'.index ensures (k, s) in db.index {
      assert MildAt(db, db', k, s);
    }
    if target.Some? {
      assert MildAt(db, db', k, target.value);
      assert LeavesOk(db, db', k, visible, target.value);
    }
  }

  lemma MildKeepsStage(
    db: Shared, db': Shared, k: Pubkey, target: Option<Slot>, expected: Option<Account>, stage: Stage)
    requires StageOk(db, k, target, expected, stage) && StoresGrow(db, db')
    requires target.Some? ==> MildAt(db, db', k, target.value) && MapsMild(db, db', target.value)
    ensures StageOk(db', k, target, expected, stage)
  {
  }

  lemma MildKeepsReader(db: Shared, db': Shared, reader: Reader)
    requires ReaderInv(db, reader)
    requires reader.Reading? ==> Mild(db, db', reader.key, reader.visible)
    ensures ReaderInv(db', reader)
  {
    if reader.Reading? {
      MildKeepsTarget(db, db', reader.key, reader.visible, reader.target, reader.expected);
      if reader.target.Some? {
        assert MildAt(db, db', reader.key, reader.target.value) && MapsMild(db, db', reader.target.value);
      }
      MildKeepsStage(db, db', reader.key, reader.target, reader.expected, reader.stage);
      forall s | s in reader.visible && s in db'.work ensures !db'.work[s].Purging? {
        assert MildAt(db, db', reader.key, s);
      }
    }
  }

  lemma WriteCacheMild(db: Shared, reader: Reader, x: Pubkey, s: Slot, account: Account)
    requires StoresGrow(db, db) && reader.Reading? && ViewOk(db, reader.visible) && CanWriteCache(db, reader, x, s)
    ensures Mild(db, DoWriteCache(db, x, s, account), reader.key, reader.visible)
  {
  }

  lemma WriteIndexMild(db: Shared, reader: Reader, x: Pubkey, s: Slot)
    requires StoresGrow(db, db) && reader.Reading? && ViewOk(db, reader.visible) && CanWriteIndex(db, reader, x, s)
    ensures Mild(db, DoWriteIndex(db, x, s), reader.key, reader.visible)
  {
  }

  lemma FlushStartMild(db: Shared, k: Pubkey, visible: set<Slot>, s: Slot, keep: set<Pubkey>)
    requires StoresGrow(db, db) && ViewOk(db, visible) && CanFlushStart(db, s, keep)
    ensures Mild(db, DoFlushStart(db, s, keep), k, visible)
  {
  }

  lemma FlushDropMild(db: Shared, k: Pubkey, visible: set<Slot>, x: Pubkey, s: Slot)
    requires StoresGrow(db, db) && ViewOk(db, visible) && CanFlushDrop(db, x, s)
    ensures Mild(db, RemoveEntry(db, x, s), k, visible)
  {
  }

  lemma FlushWriteMild(db: Shared, k: Pubkey, visible: set<Slot>, s: Slot)
    requires SharedInv(db) && ViewOk(db, visible) && CanFlushWrite(db, s)
    ensures Mild(db, DoFlushWrite(db, s), k, visible)
  {
    FlushWriteFrame(db, s);
    var db' := DoFlushWrite(db, s);
    forall t | t in visible ensures MildAt(db, db', k, t) {
      if t != s {
        assert SlotSame(db, db', t);
      } else {
        assert SlotOk(db, s);
      }
    }
  }

  lemma FlushIndexMild(db: Shared, k: Pubkey, visible: set<Slot>, x: Pubkey, s: Slot)
    requires SharedInv(db) && ViewOk(db, visible) && CanFlushIndex(db, x, s)
    ensures Mild(db, DoFlushIndex(db, x, s), k, visible)
  {
    assert SlotOk(db, s);
  }

  lemma FlushEndMild(db: Shared, k: Pubkey, visible: set<Slot>, s: Slot)
    requires StoresGrow(db, db) && ViewOk(db, visible) && CanFlushEnd(db, s)
    ensures Mild(db, DoFlushEnd(db, s), k, visible)
  {
  }

  lemma ShrinkStartMild(db: Shared, k: Pubkey, visible: set<Slot>, s: Slot, alive: set<Pubkey>, erase: set<Pubkey>)
    requires StoresGrow(db, db) && ViewOk(db, visible) && CanShrinkStart(db, s, alive, erase)
    ensures Mild(db, DoShrinkStart(db, s, alive, erase), k, visible)
  {
  }

  lemma ShrinkIndexMild(db: Shared, k: Pubkey, visible: set<Slot>, x: Pubkey, s: Slot)
    requires SharedInv(db) && ViewOk(db, visible) && CanShrinkIndex(db, x, s)
    ensures Mild(db, DoShrinkIndex(db, x, s), k, visible)
  {
    assert SlotOk(db, s);
  }

  lemma EraseIsMild(db: Shared, k: Pubkey, visible: set<Slot>, x: Pubkey, s: Slot)
    requires StoresGrow(db, db) && CanShrinkErase(db, x, s) && EraseOk(db, x, s)
    ensures Mild(db, DoShrinkErase(db, x, s), k, visible)
  {
  }

  lemma ShrinkEraseMild(db: Shared, k: Pubkey, visible: set<Slot>, x: Pubkey, s: Slot)
    requires SharedInv(db) && CanShrinkErase(db, x, s)
    ensures Mild(db, DoShrinkErase(db, x, s), k, visible)
  {
    assert Erasing(db, x, s);
    EraseIsMild(db, k, visible, x, s);
  }

  lemma SwapIsMild(db: Shared, k: Pubkey, visible: set<Slot>, s: Slot)
    requires StoresGrow(db, db) && CanShrinkSwap(db, s) && SlotOk(db, s) && ((k, s) in db.index ==> EntryOk(db, k, s))
    ensures Mild(db, DoShrinkSwap(db, s), k, visible)
  {
  }

  lemma ShrinkSwapMild(db: Shared, k: Pubkey, visible: set<Slot>, s: Slot)
    requires SharedInv(db) && CanShrinkSwap(db, s)
    ensures Mild(db, DoShrinkSwap(db, s), k, visible)
  {
    SwapIsMild(db, k, visible, s);
  }

  lemma ShrinkEndMild(db: Shared, k: Pubkey, visible: set<Slot>, s: Slot)
    requires StoresGrow(db, db) && ViewOk(db, visible) && CanShrinkEnd(db, s)
    ensures Mild(db, DoShrinkEnd(db, s), k, visible)
  {
  }

  lemma CleanOutdatedMild(db: Shared, k: Pubkey, visible: set<Slot>, x: Pubkey, s: Slot)
    requires StoresGrow(db, db) && ViewOk(db, visible) && CanCleanOutdated(db, x, s)
    ensures Mild(db, RemoveEntry(db, x, s), k, visible)
  {
  }

  lemma CleanUnrootedMild(db: Shared, k: Pubkey, visible: set<Slot>, x: Pubkey, s: Slot)
    requires StoresGrow(db, db) && ViewOk(db, visible) && CanCleanUnrooted(db, x, s)
    ensures Mild(db, RemoveEntry(db, x, s), k, visible)
  {
    assert s !in visible;
  }

  lemma CleanZeroMild(db: Shared, k: Pubkey, visible: set<Slot>, x: Pubkey, bound: Slot)
    requires StoresGrow(db, db) && ViewOk(db, visible) && CanCleanZero(db, x, bound)
    ensures Mild(db, DoCleanZero(db, x, bound), k, visible)
  {
  }

  lemma DropStoreMild(db: Shared, k: Pubkey, visible: set<Slot>, s: Slot)
    requires StoresGrow(db, db) && ViewOk(db, visible) && CanDropStore(db, s)
    ensures Mild(db, DoDropStore(db, s), k, visible)
  {
  }

  lemma PurgeStartMild(db: Shared, reader: Reader, s: Slot)
    requires StoresGrow(db, db) && reader.Reading? && ViewOk(db, reader.visible) && CanPurgeStart(db, reader, s)
    ensures Mild(db, DoPurgeStart(db, s), reader.key, reader.visible)
  {
  }

  lemma PurgeIndexMild(db: Shared, k: Pubkey, visible: set<Slot>, x: Pubkey, s: Slot)
    requires StoresGrow(db, db) && ViewOk(db, visible) && CanPurgeIndex(db, s)
    ensures Mild(db, RemoveEntry(db, x, s), k, visible)
  {
  }

  lemma PurgeEndMild(db: Shared, k: Pubkey, visible: set<Slot>, s: Slot)
    requires StoresGrow(db, db) && ViewOk(db, visible) && CanPurgeEnd(db, s)
    ensures Mild(db, DoPurgeEnd(db, s), k, visible)
  {
  }

  /** Every step that can happen during a load is mild for it. */
  lemma StepMild(db: Shared, reader: Reader, step: Step)
    requires SharedInv(db) && reader.Reading? && ViewOk(db, reader.visible) && Enabled(db, reader, step)
    ensures Mild(db, Apply(db, reader, step), reader.key, reader.visible)
  {
    match step
    case WriteCache(x, s, account) => WriteCacheMild(db, reader, x, s, account);
    case WriteIndex(x, s) => WriteIndexMild(db, reader, x, s);
    case FlushStart(s, keep) => FlushStartMild(db, reader.key, reader.visible, s, keep);
    case FlushDrop(x, s) => FlushDropMild(db, reader.key, reader.visible, x, s);
    case FlushWrite(s) => FlushWriteMild(db, reader.key, reader.visible, s);
    case FlushIndex(x, s) => FlushIndexMild(db, reader.key, reader.visible, x, s);
    case FlushEnd(s) => FlushEndMild(db, reader.key, reader.visible, s);
    case ShrinkStart(s, alive, erase) => ShrinkStartMild(db, reader.key, reader.visible, s, alive, erase);
    case ShrinkIndex(x, s) => ShrinkIndexMild(db, reader.key, reader.visible, x, s);
    case ShrinkErase(x, s) => ShrinkEraseMild(db, reader.key, reader.visible, x, s);
    case ShrinkSwap(s) => ShrinkSwapMild(db, reader.key, reader.visible, s);
    case ShrinkEnd(s) => ShrinkEndMild(db, reader.key, reader.visible, s);
    case CleanOutdated(x, s) => CleanOutdatedMild(db, reader.key, reader.visible, x, s);
    case CleanUnrooted(x, s) => CleanUnrootedMild(db, reader.key, reader.visible, x, s);
    case CleanZero(x, bound) => CleanZeroMild(db, reader.key, reader.visible, x, bound);
    case DropStore(s) => DropStoreMild(db, reader.key, reader.visible, s);
    case PurgeStart(s) => PurgeStartMild(db, reader, s);
    case PurgeIndex(x, s) => PurgeIndexMild(db, reader.key, reader.visible, x, s);
    case PurgeEnd(s) => PurgeEndMild(db, reader.key, reader.visible, s);
    case AddRoot(_) => assert false;
  }

  // ----- Whole runs -----

  ghost predicate Inv(state: State) {
    SharedInv(state.db) && ReaderInv(state.db, state.reader)
  }

  /** A run: a writer, background work and a load, interleaved in any order from the empty state. */
  ghost predicate Run(states: seq<State>) {
    && |states| > 0 && Init(states[0])
    && forall i | 0 < i < |states| :: Next(states[i - 1], states[i])
  }

  lemma NextKeeps(state: State, state': State)
    requires Inv(state) && Next(state, state')
    ensures Inv(state')
  {
    var db, reader := state.db, state.reader;
    if step :| Enabled(db, reader, step) && state' == State(Apply(db, reader, step), reader) {
      StepKeeps(db, reader, step);
      if reader.Reading? {
        StepMild(db, reader, step);
      }
      MildKeepsReader(db, state'.db, reader);
    } else if k, visible :| reader.Idle? && CanBegin(db, visible) && state' == State(db, Begin(db, k, visible)) {
      BeginKeeps(db, k, visible);
    } else if reader.stage.ReadIndex? {
      ReadIndexKeeps(db, reader);
    } else if reader.stage.LookCache? {
      LookCacheKeeps(db, reader);
    } else if !reader.stage.Done? {
      LookStoreKeeps(db, reader);
    }
  }

  lemma {:induction false} RunKeeps(states: seq<State>, i: nat)
    requires Run(states) && i < |states|
    ensures Inv(states[i])
  {
    if i > 0 {
      RunKeeps(states, i - 1);
      NextKeeps(states[i - 1], states[i]);
    }
  }

  /** In every reachable state each index entry points to a present cache entry or storage, and to
      the account last stored. */
  lemma EveryEntryResolves(states: seq<State>, i: nat, k: Pubkey, s: Slot)
    requires Run(states) && i < |states| && (k, s) in states[i].db.index
    ensures Resolves(states[i].db, k, s)
  {
    RunKeeps(states, i);
    assert EntryOk(states[i].db, k, s);
  }

  /** A fixed-root load misses the cache at most once. */
  lemma AtMostOneMiss(states: seq<State>, i: nat)
    requires Run(states) && i < |states| && states[i].reader.Reading?
    ensures states[i].reader.misses <= 1
  {
    RunKeeps(states, i);
  }

  lemma {:induction false} BelowIsSmall(ids: set<StoreId>, bound: nat)
    requires forall id | id in ids :: id < bound
    ensures |ids| <= bound
  {
    if bound > 0 {
      BelowIsSmall(ids - {bound - 1}, bound - 1);
      assert ids <= (ids - {bound - 1}) + {bound - 1};
      if bound - 1 in ids { assert ids == (ids - {bound - 1}) + {bound - 1}; } else { assert ids - {bound - 1} == ids; }
    } else {
      assert ids == {};
    }
  }

  /** Restarts after a storage was found gone are bounded: each is for a storage that was retired, none is
      counted twice, and the whole load takes four steps for each of them and at most eight besides. */
  lemma RestartsAreBounded(states: seq<State>, i: nat)
    requires Run(states) && i < |states| && states[i].reader.Reading?
    ensures var db, reader := states[i].db, states[i].reader;
      && (forall id | id in reader.tried :: reader.target.Some? && Retired(db, reader.target.value, id))
      && reader.steps <= 8 + 4 * |reader.tried| && |reader.tried| <= db.nextId
  {
    RunKeeps(states, i);
    BelowIsSmall(states[i].reader.tried, states[i].db.nextId);
  }

  /** A load that starts over because a storage is gone had not tried that storage before. */
  lemma RestartIsNew(states: seq<State>, i: nat)
    requires Run(states) && i < |states| && states[i].reader.Reading? && states[i].reader.stage.LookMapAgain?
    ensures var next := Advance(states[i].db, states[i].reader);
      next.stage.ReadIndex? ==> |next.tried| == |states[i].reader.tried| + 1
  {
    RunKeeps(states, i);
  }

  /** A load that starts over is never sent to the place it just found empty. */
  lemma NeverSentBack(states: seq<State>, i: nat)
    requires Run(states) && i < |states| && states[i].reader.Reading?
    requires states[i].reader.stage.ReadIndex? && states[i].reader.stage.failed.Some?
    ensures var failed := states[i].reader.stage.failed.value;
      var reader := Advance(states[i].db, states[i].reader);
      && (failed.1.Cached? ==> reader.stage != LookCache(failed.0))
      && (failed.1.Stored? ==> reader.stage != LookMap(failed.0, failed.1.id))
  {
    RunKeeps(states, i);
    var db, reader := states[i].db, states[i].reader;
    LatestIsMax(db, reader.key, reader.visible);
  }

  /** What a load is looking for does not change until it is done. */
  lemma {:induction false} LoadIsFixed(states: seq<State>, i: nat, j: nat)
    requires Run(states) && i <= j < |states|
    requires forall n | i <= n <= j :: states[n].reader.Reading?
    ensures states[j].reader.key == states[i].reader.key && states[j].reader.target == states[i].reader.target
    ensures states[j].reader.expected == states[i].reader.expected
  {
    if i < j {
      LoadIsFixed(states, i, j - 1);
      assert Next(states[j - 1], states[j]);
    }
  }

  /** A load returns the latest version that was visible when it began, whatever happened meanwhile;
      it may return nothing in place of an account without lamports, and returns nothing if there was
      no version. */
  lemma LoadReturnsLatest(states: seq<State>, i: nat, j: nat, k: Pubkey, visible: set<Slot>)
    requires Run(states) && i <= j < |states|
    requires states[i].reader == Begin(states[i].db, k, visible)
    requires forall n | i <= n <= j :: states[n].reader.Reading?
    requires states[j].reader.stage.Done?
    ensures var latest := Latest(states[i].db, k, visible);
      var result := states[j].reader.stage.result;
      if latest.None? then result.None?
      else (k, latest.value) in states[i].db.truth
           && (result == Some(states[i].db.truth[(k, latest.value)])
               || (result.None? && states[i].db.truth[(k, latest.value)].lamports == 0))
  {
    RunKeeps(states, i);
    RunKeeps(states, j);
    LoadIsFixed(states, i, j);
  }

  /** The lookup in the map, the shrink map and the map again never misses a pinned entry: as long as the
      index points to the storage, the last look finds it, wherever the shrinks stand. */
  lemma PinnedLookupFinds(states: seq<State>, i: nat, slot: Slot, id: StoreId)
    requires Run(states) && i < |states| && states[i].reader.Reading?
    requires states[i].reader.stage == LookMapAgain(slot, id)
    requires var k := states[i].reader.key;
      (k, slot) in states[i].db.index && states[i].db.index[(k, slot)] == Stored(id)
    ensures var k := states[i].reader.key;
      && (k, slot) in states[i].db.truth
      && Advance(states[i].db, states[i].reader).stage == Done(Some(states[i].db.truth[(k, slot)]))
  {
    RunKeeps(states, i);
  }

  /** The last look finds the account if and only if the map still has the storage that the index named;
      otherwise the load remembers that the storage is gone and starts over. */
  lemma LastLookFindsIff(states: seq<State>, i: nat, slot: Slot, id: StoreId)
    requires Run(states) && i < |states| && states[i].reader.Reading?
    requires states[i].reader.stage == LookMapAgain(slot, id)
    ensures var db, k, next := states[i].db, states[i].reader.key, Advance(states[i].db, states[i].reader);
      && next.Reading? && (k, slot) in db.truth
      && if slot in db.storeMap && db.storeMap[slot] == id then next.stage == Done(Some(db.truth[(k, slot)]))
         else next.stage == ReadIndex(Some((slot, Stored(id)))) && next.tried == states[i].reader.tried + {id}
  {
    RunKeeps(states, i);
  }

  lemma ExtendRun(states: seq<State>, next: State)
    requires Run(states) && Next(states[|states| - 1], next)
    ensures Run(states + [next])
  {
    var all := states + [next];
    forall i | 0 < i < |all| ensures Next(all[i - 1], all[i]) {
      assert all[i - 1] == states[i - 1];
    }
  }

  lemma ExtendByStep(states: seq<State>, step: Step, db: Shared) returns (longer: seq<State>)
    requires Run(states)
    requires var last := states[|states| - 1];
      Enabled(last.db, last.reader, step) && db == Apply(last.db, last.reader, step)
    ensures Run(longer) && longer[|longer| - 1] == State(db, states[|states| - 1].reader)
  {
    var last := states[|states| - 1];
    longer := states + [State(db, last.reader)];
    ExtendRun(states, State(db, last.reader));
  }

  lemma ExtendByReader(states: seq<State>) returns (longer: seq<State>)
    requires Run(states) && states[|states| - 1].reader.Reading?
    ensures var last := states[|states| - 1];
      Run(longer) && longer[|longer| - 1] == State(last.db, Advance(last.db, last.reader))
  {
    var last := states[|states| - 1];
    longer := states + [State(last.db, Advance(last.db, last.reader))];
    ExtendRun(states, State(last.db, Advance(last.db, last.reader)));
  }

  /** A run in which an account has been stored and a load has read that it is cached. */
  lemma LoadOfCached(k: Pubkey, s: Slot, account: Account) returns (states: seq<State>)
    ensures Run(states)
    ensures states[|states| - 1] == State(
      Shared(map[(k, s) := Cached], map[s := map[k := account]], map[], map[], map[], 0, {}, map[],
             map[(k, s) := account]),
      Reading(k, {s}, Some(s), Some(account), 0, {}, 1, LookCache(s)))
  {
    var db0 := Shared(map[], map[], map[], map[], map[], 0, {}, map[], map[]);
    states := [State(db0, Idle)];
    states := ExtendByStep(states, WriteCache(k, s, account), DoWriteCache(db0, k, s, account));
    var db1 := states[|states| - 1].db;
    states := ExtendByStep(states, WriteIndex(k, s), DoWriteIndex(db1, k, s));
    var db2 := states[|states| - 1].db;
    assert Entries(db2, k, {s}) == {s};
    assert CanBegin(db2, {s});
    ExtendRun(states, State(db2, Begin(db2, k, {s})));
    states := ExtendByReader(states + [State(db2, Begin(db2, k, {s}))]);
  }

  /** The bound on misses is attained: the slot is flushed between the load's two reads. */
  lemma OneMissHappens(k: Pubkey, s: Slot, account: Account) returns (states: seq<State>)
    ensures Run(states)
    ensures var last := states[|states| - 1]; last.reader.Reading? && last.reader.misses == 1
  {
    states := LoadOfCached(k, s, account);
    var db := states[|states| - 1].db;
    states := ExtendByStep(states, FlushStart(s, {k}), DoFlushStart(db, s, {k}));
    states := ExtendByStep(states, FlushWrite(s), DoFlushWrite(states[|states| - 1].db, s));
    states := ExtendByStep(states, FlushIndex(k, s), DoFlushIndex(states[|states| - 1].db, k, s));
    states := ExtendByStep(states, FlushEnd(s), DoFlushEnd(states[|states| - 1].db, s));
    states := ExtendByReader(states);
  }
}
