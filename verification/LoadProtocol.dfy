/** The lock-free account load against concurrent stores, cache flushes, shrinks, cleans and
    purges, as a transition system.

    A load reads the index and then looks in the write cache or in the storage maps, and starts
    over when the place it was sent to is gone.  Background work moves accounts between these
    places, always making the new place reachable before the index points to it and keeping the
    old place until the index no longer does. */
module LoadProtocol {
  import opened Types
  import opened Rebuild

  type StoreId = nat

  /** Where an index entry points.  The offset in a storage is fixed by the storage and the key. */
  datatype Location = Cached | Stored(id: StoreId)

  type Place = (Pubkey, Slot)

  /** What background work is under way on a slot.  One slot has at most one kind. */
  datatype Work =
      /** Flushing; keys outside `keep` are outdated and leave the index. */
    | Dropping(keep: set<Pubkey>)
      /** Flushed accounts are in storage `id`; the index entries of `todo` still say cached. */
    | FlushIndexing(id: StoreId, todo: set<Pubkey>)
      /** Alive accounts are copied to `newId`; the index entries of `todo` still say `oldId`, and
          the zero-lamport keys in `erase` are still in the index. */
    | Shrinking(oldId: StoreId, newId: StoreId, todo: set<Pubkey>, erase: set<Pubkey>)
      /** The new storage has replaced the old one in the map of storages. */
    | Swapped(newId: StoreId)
      /** The slot is on a dead fork and is removed. */
    | Purging

  datatype Shared = Shared(
    index: map<Place, Location>,
    cache: map<Slot, map<Pubkey, Account>>,
    stores: map<StoreId, map<Pubkey, Account>>,  // every storage ever created; readers hold references
    storeMap: map<Slot, StoreId>,
    shrinkMap: map<Slot, StoreId>,
    nextId: StoreId,
    roots: set<Slot>,
    work: map<Slot, Work>,
    truth: map<Place, Account>)  // history: the account last stored for the key in the slot

  /** Where a load is.  `ReadIndex` remembers the place that was just found empty. */
  datatype Stage =
    | ReadIndex(failed: Option<(Slot, Location)>)
    | LookCache(slot: Slot)
    | LookMap(slot: Slot, id: StoreId)
    | LookShrinkMap(slot: Slot, id: StoreId)
    | LookMapAgain(slot: Slot, id: StoreId)
    | Done(result: Option<Account>)

  /** A load with a fixed set of visible slots (its ancestors and the roots).  `target` and `expected`
      record the latest visible version when the load began; `misses` counts the misses of the cache,
      `tried` has the storages that were found gone, and `steps` counts the load's own steps. */
  datatype Reader =
    | Idle
    | Reading(key: Pubkey, visible: set<Slot>, target: Option<Slot>, expected: Option<Account>,
              misses: nat, tried: set<StoreId>, steps: nat, stage: Stage)

  /** Loads do not change shared state, so one arbitrary load stands for all of them. */
  datatype State = State(db: Shared, reader: Reader)

  // ----- Derived notions -----

  /** The slots among `visible` at which the index has `k`. */
  function Entries(db: Shared, k: Pubkey, visible: set<Slot>): set<Slot> {
    set s | s in visible && (k, s) in db.index
  }

  /** `latest_slot` over the slots that the load can see. */
  function Latest(db: Shared, k: Pubkey, visible: set<Slot>): Option<Slot> {
    var entries := Entries(db, k, visible);
    if entries == {} then None else Some(MaxOf(entries))
  }

  /** The load is reading this key and can see this slot. */
  predicate Watches(reader: Reader, k: Pubkey, s: Slot) {
    reader.Reading? && reader.key == k && s in reader.visible
  }

  /** A later root has a newer version. */
  ghost predicate Outdated(db: Shared, k: Pubkey, s: Slot) {
    exists t :: s < t && t in db.roots && (k, t) in db.index
  }

  /** Work on slot `s` will still point the index entry of `k` to storage `id`. */
  predicate Pending(db: Shared, k: Pubkey, s: Slot, id: StoreId) {
    s in db.work && match db.work[s]
      case FlushIndexing(flushId, todo) => flushId == id && k in todo
      case Shrinking(_, newId, todo, _) => newId == id && k in todo
      case _ => false
  }

  predicate NoEntries(db: Shared, s: Slot) {
    forall p | p in db.index :: p.1 != s
  }

  // ----- Transitions -----

  datatype Step =
    | WriteCache(k: Pubkey, s: Slot, account: Account)
    | WriteIndex(k: Pubkey, s: Slot)
    | FlushStart(s: Slot, keep: set<Pubkey>)
    | FlushDrop(k: Pubkey, s: Slot)
    | FlushWrite(s: Slot)
    | FlushIndex(k: Pubkey, s: Slot)
    | FlushEnd(s: Slot)
    | ShrinkStart(s: Slot, alive: set<Pubkey>, erase: set<Pubkey>)
    | ShrinkIndex(k: Pubkey, s: Slot)
    | ShrinkErase(k: Pubkey, s: Slot)
    | ShrinkSwap(s: Slot)
    | ShrinkEnd(s: Slot)
    | CleanOutdated(k: Pubkey, s: Slot)
    | CleanUnrooted(k: Pubkey, s: Slot)
    | CleanZero(k: Pubkey, bound: Slot)
    | DropStore(s: Slot)
    | PurgeStart(s: Slot)
    | PurgeIndex(k: Pubkey, s: Slot)
    | PurgeEnd(s: Slot)
    | AddRoot(s: Slot)

  /** The rooted entries of `k` up to the bound, which clean removes together. */
  function RootedUpTo(db: Shared, k: Pubkey, bound: Slot): set<Slot> {
    set s | s in db.roots && s <= bound && (k, s) in db.index
  }

  function Restrict(accounts: map<Pubkey, Account>, keys: set<Pubkey>): map<Pubkey, Account> {
    map k | k in accounts && k in keys :: accounts[k]
  }

  predicate AboveRoots(db: Shared, s: Slot) {
    forall r | r in db.roots :: r < s
  }

  // store_accounts_unfrozen: the cache first, then the index, for a slot above the roots.
  // Nobody stores to a slot that a fixed-root load of the same key can see.

  predicate CanWriteCache(db: Shared, reader: Reader, k: Pubkey, s: Slot) {
    s !in db.work && s !in db.storeMap && AboveRoots(db, s) && !Watches(reader, k, s)
  }

  function DoWriteCache(db: Shared, k: Pubkey, s: Slot, account: Account): Shared {
    var slotCache := if s in db.cache then db.cache[s] else map[];
    db.(cache := db.cache[s := slotCache[k := account]], truth := db.truth[(k, s) := account])
  }

  predicate CanWriteIndex(db: Shared, reader: Reader, k: Pubkey, s: Slot) {
    s !in db.work && s in db.cache && k in db.cache[s] && AboveRoots(db, s) && !Watches(reader, k, s)
  }

  function DoWriteIndex(db: Shared, k: Pubkey, s: Slot): Shared {
    if (k, s) in db.index then db else db.(index := db.index[(k, s) := Cached])
  }

  // do_flush_slot_cache, for a frozen slot: all its accounts are in the index.

  predicate CanFlushStart(db: Shared, s: Slot, keep: set<Pubkey>) {
    && s in db.cache && s !in db.work && keep <= db.cache[s].Keys
    && (forall k | k in db.cache[s] :: (k, s) in db.index)
  }

  function DoFlushStart(db: Shared, s: Slot, keep: set<Pubkey>): Shared {
    db.(work := db.work[s := Dropping(keep)])
  }

  ghost predicate CanFlushDrop(db: Shared, k: Pubkey, s: Slot) {
    && s in db.work && db.work[s].Dropping? && k !in db.work[s].keep
    && (k, s) in db.index && Outdated(db, k, s)
  }

  function RemoveEntry(db: Shared, k: Pubkey, s: Slot): Shared {
    db.(index := db.index - {(k, s)})
  }

  predicate CanFlushWrite(db: Shared, s: Slot) {
    && s in db.work && db.work[s].Dropping? && db.work[s].keep != {}
    && (forall p | p in db.index && p.1 == s :: p.0 in db.work[s].keep)
  }

  function DoFlushWrite(db: Shared, s: Slot): Shared
    requires CanFlushWrite(db, s)
  {
    var accounts := if s in db.cache then Restrict(db.cache[s], db.work[s].keep) else map[];
    db.(stores := db.stores[db.nextId := accounts], storeMap := db.storeMap[s := db.nextId],
        nextId := db.nextId + 1, work := db.work[s := FlushIndexing(db.nextId, accounts.Keys)])
  }

  predicate CanFlushIndex(db: Shared, k: Pubkey, s: Slot) {
    s in db.work && db.work[s].FlushIndexing? && k in db.work[s].todo
  }

  function DoFlushIndex(db: Shared, k: Pubkey, s: Slot): Shared
    requires CanFlushIndex(db, k, s)
  {
    var work := db.work[s];
    db.(index := db.index[(k, s) := Stored(work.id)],
        work := db.work[s := FlushIndexing(work.id, work.todo - {k})])
  }

  predicate CanFlushEnd(db: Shared, s: Slot) {
    && s in db.work
    && ((db.work[s].FlushIndexing? && db.work[s].todo == {})
        || (db.work[s].Dropping? && db.work[s].keep == {} && NoEntries(db, s)))
  }

  function DoFlushEnd(db: Shared, s: Slot): Shared {
    db.(cache := db.cache - {s}, work := db.work - {s})
  }

  // shrink_storage, for a slot that is not in the write cache.

  ghost predicate CanShrinkStart(db: Shared, s: Slot, alive: set<Pubkey>, erase: set<Pubkey>) {
    && s in db.storeMap && s in db.roots && s !in db.cache && s !in db.work && alive !! erase
    && (forall k :: (k, s) in db.index <==> k in alive + erase)
    && (forall k | k in erase :: EraseOk(db, k, s))
  }

  /** A zero-lamport account without an older version, which a shrink may erase. */
  ghost predicate EraseOk(db: Shared, k: Pubkey, s: Slot) {
    && s in db.roots && (k, s) in db.truth && db.truth[(k, s)].IsZeroLamport()
    && forall p | p in db.index && p.0 == k :: s <= p.1
  }

  function DoShrinkStart(db: Shared, s: Slot, alive: set<Pubkey>, erase: set<Pubkey>): Shared
    requires s in db.storeMap
  {
    var oldId := db.storeMap[s];
    var accounts := if oldId in db.stores then Restrict(db.stores[oldId], alive) else map[];
    db.(stores := db.stores[db.nextId := accounts], shrinkMap := db.shrinkMap[s := db.nextId],
        nextId := db.nextId + 1, work := db.work[s := Shrinking(oldId, db.nextId, alive, erase)])
  }

  predicate CanShrinkIndex(db: Shared, k: Pubkey, s: Slot) {
    s in db.work && db.work[s].Shrinking? && k in db.work[s].todo
  }

  function DoShrinkIndex(db: Shared, k: Pubkey, s: Slot): Shared
    requires CanShrinkIndex(db, k, s)
  {
    var work := db.work[s];
    db.(index := db.index[(k, s) := Stored(work.newId)],
        work := db.work[s := Shrinking(work.oldId, work.newId, work.todo - {k}, work.erase)])
  }

  predicate CanShrinkErase(db: Shared, k: Pubkey, s: Slot) {
    s in db.work && db.work[s].Shrinking? && k in db.work[s].erase
  }

  function DoShrinkErase(db: Shared, k: Pubkey, s: Slot): Shared
    requires CanShrinkErase(db, k, s)
  {
    var work := db.work[s];
    db.(index := db.index - {(k, s)},
        work := db.work[s := Shrinking(work.oldId, work.newId, work.todo, work.erase - {k})])
  }

  predicate CanShrinkSwap(db: Shared, s: Slot) {
    s in db.work && db.work[s].Shrinking? && db.work[s].todo == {} && db.work[s].erase == {}
  }

  function DoShrinkSwap(db: Shared, s: Slot): Shared
    requires CanShrinkSwap(db, s)
  {
    db.(storeMap := db.storeMap[s := db.work[s].newId], work := db.work[s := Swapped(db.work[s].newId)])
  }

  predicate CanShrinkEnd(db: Shared, s: Slot) {
    s in db.work && db.work[s].Swapped?
  }

  function DoShrinkEnd(db: Shared, s: Slot): Shared {
    db.(shrinkMap := db.shrinkMap - {s}, work := db.work - {s})
  }

  // clean_accounts, which does not run beside work on the same slot.

  ghost predicate CanCleanOutdated(db: Shared, k: Pubkey, s: Slot) {
    s !in db.work && (k, s) in db.index && db.index[(k, s)].Stored? && Outdated(db, k, s)
  }

  /** A stored version in a slot that was not rooted when later slots were. */
  ghost predicate CanCleanUnrooted(db: Shared, k: Pubkey, s: Slot) {
    && s !in db.work && (k, s) in db.index && db.index[(k, s)].Stored?
    && s !in db.roots && exists r :: r in db.roots && s < r
  }

  predicate CanCleanZero(db: Shared, k: Pubkey, bound: Slot) {
    var slots := RootedUpTo(db, k, bound);
    && slots != {} && (forall s | s in slots :: s !in db.work && db.index[(k, s)].Stored?)
    && (k, MaxOf(slots)) in db.truth && db.truth[(k, MaxOf(slots))].IsZeroLamport()
  }

  function DoCleanZero(db: Shared, k: Pubkey, bound: Slot): Shared {
    db.(index := db.index - set s | s in RootedUpTo(db, k, bound) :: (k, s))
  }

  predicate CanDropStore(db: Shared, s: Slot) {
    s in db.storeMap && s !in db.work && s !in db.cache && NoEntries(db, s)
  }

  function DoDropStore(db: Shared, s: Slot): Shared {
    db.(storeMap := db.storeMap - {s})
  }

  // purge_slots_from_cache_and_store, for an unrooted slot that no load can see.

  predicate CanPurgeStart(db: Shared, reader: Reader, s: Slot) {
    s !in db.roots && s !in db.work && (reader.Reading? ==> s !in reader.visible)
  }

  function DoPurgeStart(db: Shared, s: Slot): Shared {
    db.(work := db.work[s := Purging])
  }

  predicate CanPurgeIndex(db: Shared, s: Slot) {
    s in db.work && db.work[s].Purging?
  }

  predicate CanPurgeEnd(db: Shared, s: Slot) {
    s in db.work && db.work[s].Purging? && NoEntries(db, s)
  }

  function DoPurgeEnd(db: Shared, s: Slot): Shared {
    db.(cache := db.cache - {s}, storeMap := db.storeMap - {s}, work := db.work - {s})
  }

  // The root does not move while a fixed-root load runs.

  predicate CanAddRoot(db: Shared, reader: Reader, s: Slot) {
    reader.Idle? && (s in db.work ==> !db.work[s].Purging?) && AboveRoots(db, s)
  }

  function DoAddRoot(db: Shared, s: Slot): Shared {
    db.(roots := db.roots + {s})
  }

  /** When a step of the writers or of background work may happen. */
  ghost predicate Enabled(db: Shared, reader: Reader, step: Step) {
    match step
    case WriteCache(k, s, _) => CanWriteCache(db, reader, k, s)
    case WriteIndex(k, s) => CanWriteIndex(db, reader, k, s)
    case FlushStart(s, keep) => CanFlushStart(db, s, keep)
    case FlushDrop(k, s) => CanFlushDrop(db, k, s)
    case FlushWrite(s) => CanFlushWrite(db, s)
    case FlushIndex(k, s) => CanFlushIndex(db, k, s)
    case FlushEnd(s) => CanFlushEnd(db, s)
    case ShrinkStart(s, alive, erase) => CanShrinkStart(db, s, alive, erase)
    case ShrinkIndex(k, s) => CanShrinkIndex(db, k, s)
    case ShrinkErase(k, s) => CanShrinkErase(db, k, s)
    case ShrinkSwap(s) => CanShrinkSwap(db, s)
    case ShrinkEnd(s) => CanShrinkEnd(db, s)
    case CleanOutdated(k, s) => CanCleanOutdated(db, k, s)
    case CleanUnrooted(k, s) => CanCleanUnrooted(db, k, s)
    case CleanZero(k, bound) => CanCleanZero(db, k, bound)
    case DropStore(s) => CanDropStore(db, s)
    case PurgeStart(s) => CanPurgeStart(db, reader, s)
    case PurgeIndex(_, s) => CanPurgeIndex(db, s)
    case PurgeEnd(s) => CanPurgeEnd(db, s)
    case AddRoot(s) => CanAddRoot(db, reader, s)
  }

  /** What a step does. */
  ghost function Apply(db: Shared, reader: Reader, step: Step): Shared
    requires Enabled(db, reader, step)
  {
    match step
    case WriteCache(k, s, account) => DoWriteCache(db, k, s, account)
    case WriteIndex(k, s) => DoWriteIndex(db, k, s)
    case FlushStart(s, keep) => DoFlushStart(db, s, keep)
    case FlushDrop(k, s) => RemoveEntry(db, k, s)
    case FlushWrite(s) => DoFlushWrite(db, s)
    case FlushIndex(k, s) => DoFlushIndex(db, k, s)
    case FlushEnd(s) => DoFlushEnd(db, s)
    case ShrinkStart(s, alive, erase) => DoShrinkStart(db, s, alive, erase)
    case ShrinkIndex(k, s) => DoShrinkIndex(db, k, s)
    case ShrinkErase(k, s) => DoShrinkErase(db, k, s)
    case ShrinkSwap(s) => DoShrinkSwap(db, s)
    case ShrinkEnd(s) => DoShrinkEnd(db, s)
    case CleanOutdated(k, s) => RemoveEntry(db, k, s)
    case CleanUnrooted(k, s) => RemoveEntry(db, k, s)
    case CleanZero(k, bound) => DoCleanZero(db, k, bound)
    case DropStore(s) => DoDropStore(db, s)
    case PurgeStart(s) => DoPurgeStart(db, s)
    case PurgeIndex(k, s) => RemoveEntry(db, k, s)
    case PurgeEnd(s) => DoPurgeEnd(db, s)
    case AddRoot(s) => DoAddRoot(db, s)
  }

  /** A load sees the roots and its ancestors, which descend from the latest root: every visible slot
      below a root is a root. */
  ghost predicate CanBegin(db: Shared, visible: set<Slot>) {
    && db.roots <= visible
    && (forall s, r | s in visible && r in db.roots && s < r :: s in db.roots)
    && (forall s | s in visible && s in db.work :: !db.work[s].Purging?)
  }

  function Begin(db: Shared, k: Pubkey, visible: set<Slot>): Reader {
    var target := Latest(db, k, visible);
    var expected := if target.Some? && (k, target.value) in db.truth then Some(db.truth[(k, target.value)]) else None;
    Reading(k, visible, target, expected, 0, {}, 0, ReadIndex(None))
  }

  /** One step of the load: read the index, or look in one of the maps. */
  function Advance(db: Shared, reader: Reader): Reader
    requires reader.Reading?
  {
    var k, next := reader.key, reader.(steps := reader.steps + 1);
    match reader.stage
    case ReadIndex(_) =>
      var latest := Latest(db, k, reader.visible);
      if latest.None? then next.(stage := Done(None))
      else
        var slot := latest.value;
        (match db.index[(k, slot)]
         case Cached => next.(stage := LookCache(slot))
         case Stored(id) => next.(stage := LookMap(slot, id)))
    case LookCache(slot) =>
      if slot in db.cache && k in db.cache[slot]
      then next.(stage := Done(Some(db.cache[slot][k])))
      else next.(misses := reader.misses + 1, stage := ReadIndex(Some((slot, Cached))))
    case LookMap(slot, id) => Look(db, next, db.storeMap, slot, id, next.(stage := LookShrinkMap(slot, id)))
    case LookShrinkMap(slot, id) => Look(db, next, db.shrinkMap, slot, id, next.(stage := LookMapAgain(slot, id)))
    case LookMapAgain(slot, id) =>
      var retry := next.(tried := reader.tried + {id}, stage := ReadIndex(Some((slot, Stored(id)))));
      Look(db, next, db.storeMap, slot, id, retry)
    case Done(_) => Idle
  }

  /** Look for the storage in one map; a storage that is found stays readable. */
  function Look(db: Shared, reader: Reader, places: map<Slot, StoreId>, slot: Slot, id: StoreId, otherwise: Reader)
    : Reader
    requires reader.Reading?
  {
    if slot in places && places[slot] == id && id in db.stores && reader.key in db.stores[id]
    then reader.(stage := Done(Some(db.stores[id][reader.key])))
    else otherwise
  }

  ghost predicate Init(state: State) {
    state == State(Shared(map[], map[], map[], map[], map[], 0, {}, map[], map[]), Idle)
  }

  ghost predicate Next(state: State, state': State) {
    || (exists step :: Enabled(state.db, state.reader, step)
                       && state' == State(Apply(state.db, state.reader, step), state.reader))
    || (state.reader.Idle? && exists k, visible ::
          CanBegin(state.db, visible) && state' == State(state.db, Begin(state.db, k, visible)))
    || (state.reader.Reading? && state' == State(state.db, Advance(state.db, state.reader)))
  }
}
