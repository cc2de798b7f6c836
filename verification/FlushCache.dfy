/** Flushing the write cache to storages, root by root from the highest to the lowest, dropping
    versions that a later flushed root supersedes. */
module FlushCache {
  import opened Types
  import opened Rebuild

  type Place = (Pubkey, Slot)

  datatype Db = Db(cache: Files, storages: Files, index: set<Place>, roots: set<Slot>)

  predicate Cached(db: Db, k: Pubkey, s: Slot) { s in db.cache && k in db.cache[s] }

  predicate Stored(db: Db, k: Pubkey, s: Slot) { s in db.storages && k in db.storages[s] }

  /** A slot is cached or stored, every index entry is found in its place, and the index covers the
      cached accounts of rooted slots. */
  ghost predicate Consistent(db: Db) {
    && (forall s | s in db.cache :: s !in db.storages)
    && (forall k: Pubkey, s: Slot | (k, s) in db.index :: Cached(db, k, s) || Stored(db, k, s))
    && (forall k: Pubkey, s: Slot | s in db.roots && Cached(db, k, s) :: (k, s) in db.index)
  }

  function Version(db: Db, k: Pubkey, s: Slot): Account
    requires Cached(db, k, s) || Stored(db, k, s)
  {
    if Cached(db, k, s) then db.cache[s][k] else db.storages[s][k]
  }

  /** The rooted versions of `k` that a reader at `root` may see. */
  function Versions(db: Db, k: Pubkey, root: Slot): set<Slot> {
    set s | s in db.roots && s <= root && (k, s) in db.index
  }

  /** The newest rooted version of `k` for a reader at `root`. */
  ghost function View(db: Db, k: Pubkey, root: Slot): Option<(Slot, Account)>
    requires Consistent(db)
  {
    var slots := Versions(db, k, root);
    if slots == {} then None else Some((MaxOf(slots), Version(db, k, MaxOf(slots))))
  }

  /** A reader at `root` sees the key's version in the highest root up to it that the index has. */
  lemma ViewIff(db: Db, k: Pubkey, root: Slot, s: Slot, account: Account)
    requires Consistent(db)
    ensures View(db, k, root) == Some((s, account)) <==>
      && s in db.roots && s <= root && (k, s) in db.index && Version(db, k, s) == account
      && forall t | t in db.roots && t <= root && (k, t) in db.index :: t <= s
  {
    var slots := Versions(db, k, root);
    if s in db.roots && s <= root && (k, s) in db.index { assert s in slots; }
    if View(db, k, root).Some? {
      var newest := MaxOf(slots);
      forall t | t in db.roots && t <= root && (k, t) in db.index ensures t <= newest { assert t in slots; }
    }
  }

  // ----- What a flush does -----

  predicate KeepsSome(db: Db, dropped: set<Place>, s: Slot) {
    s in db.cache && exists k | k in db.cache[s] :: (k, s) !in dropped
  }

  /** The storage of slot `s` holds what the cache held, except for the accounts in `dropped`. */
  ghost predicate MovedTo(db: Db, dropped: set<Place>, after: Db, s: Slot)
    requires s in db.cache
  {
    && s in after.storages
    && (forall k :: k in after.storages[s] <==> k in db.cache[s] && (k, s) !in dropped)
    && (forall k | k in after.storages[s] :: after.storages[s][k] == db.cache[s][k])
  }

  ghost predicate SlotFlushedTo(db: Db, flushed: set<Slot>, dropped: set<Place>, after: Db, s: Slot) {
    if s in flushed then
      && s !in after.cache
      && (s in after.roots <==> s in db.roots && KeepsSome(db, dropped, s))
      && if KeepsSome(db, dropped, s) then MovedTo(db, dropped, after, s) else s !in after.storages
    else
      && (s in after.cache <==> s in db.cache)
      && (s in after.cache ==> after.cache[s] == db.cache[s])
      && (s in after.roots <==> s in db.roots)
      && (s in after.storages <==> s in db.storages)
      && (s in after.storages ==> after.storages[s] == db.storages[s])
  }

  /** The slots in `flushed` move from the cache to storages, except for the accounts in `dropped`;
      a slot of which nothing is kept gets no storage and loses its root. */
  ghost predicate FlushedTo(db: Db, flushed: set<Slot>, dropped: set<Place>, after: Db) {
    && after.index == db.index - dropped
    && (forall s :: SlotFlushedTo(db, flushed, dropped, after, s))
  }

  /** What is flushed are cached roots, and what is dropped are accounts in them. */
  ghost predicate FlushOk(db: Db, flushed: set<Slot>, dropped: set<Place>) {
    && (forall s | s in flushed :: s in db.cache && s in db.roots)
    && (forall p | p in dropped :: p.1 in flushed && p.0 in db.cache[p.1])
  }

  /** `k` is superseded in `s`: a later flushed root holds it, and both are within the clean bound. */
  ghost predicate Superseded(cache: Files, flushed: set<Slot>, bound: Option<Slot>, k: Pubkey, s: Slot) {
    && WithinBound(s, bound)
    && exists t :: t in flushed && s < t && WithinBound(t, bound) && t in cache && k in cache[t]
  }

  /** What a cleaning flush drops. */
  ghost predicate DropsSuperseded(cache: Files, flushed: set<Slot>, bound: Option<Slot>, dropped: set<Place>) {
    forall k: Pubkey, s: Slot :: (k, s) in dropped <==>
      s in flushed && s in cache && k in cache[s] && Superseded(cache, flushed, bound, k, s)
  }

  /** The keys written from the flushed roots within the bound. */
  ghost predicate WrittenFrom(cache: Files, flushed: set<Slot>, bound: Option<Slot>, written: set<Pubkey>) {
    forall k :: k in written <==> exists t :: t in flushed && WithinBound(t, bound) && t in cache && k in cache[t]
  }

  /** A reader at `root` is at or above every root that the flush cleans. */
  predicate AboveCleaned(flushed: set<Slot>, bound: Option<Slot>, root: Slot) {
    forall s | s in flushed && WithinBound(s, bound) :: s <= root
  }

  /** The slots among `slots` up to the bound. */
  function UpTo(slots: set<Slot>, bound: Option<Slot>): set<Slot> {
    set s | s in slots && WithinBound(s, bound)
  }

  lemma SplitIsUpTo(slots: set<Slot>, low: set<Slot>, high: set<Slot>, bound: Option<Slot>)
    requires low + high == slots
    requires (forall s | s in low :: WithinBound(s, bound)) && (forall s | s in high :: !WithinBound(s, bound))
    ensures low == UpTo(slots, bound) && high == slots - low
  {
  }

  // ----- Flushing preserves views -----

  lemma FlushKeepsConsistent(db: Db, flushed: set<Slot>, dropped: set<Place>, after: Db)
    requires Consistent(db) && FlushOk(db, flushed, dropped) && FlushedTo(db, flushed, dropped, after)
    ensures Consistent(after)
  {
    forall s | s in after.cache ensures s !in after.storages {
      assert SlotFlushedTo(db, flushed, dropped, after, s);
    }
    forall k: Pubkey, s: Slot | (k, s) in after.index ensures Cached(after, k, s) || Stored(after, k, s) {
      assert SlotFlushedTo(db, flushed, dropped, after, s);
      assert Cached(db, k, s) || Stored(db, k, s);
    }
    forall k: Pubkey, s: Slot | s in after.roots && Cached(after, k, s) ensures (k, s) in after.index {
      assert SlotFlushedTo(db, flushed, dropped, after, s);
      assert Cached(db, k, s);
    }
  }

  lemma KeptVersion(db: Db, flushed: set<Slot>, dropped: set<Place>, after: Db, k: Pubkey, s: Slot)
    requires Consistent(db) && FlushOk(db, flushed, dropped) && FlushedTo(db, flushed, dropped, after)
    requires (k, s) in db.index && (k, s) !in dropped && s in db.roots
    ensures s in after.roots && (k, s) in after.index
    ensures Cached(after, k, s) || Stored(after, k, s)
    ensures Version(after, k, s) == Version(db, k, s)
  {
    assert Cached(db, k, s) || Stored(db, k, s);
    assert SlotFlushedTo(db, flushed, dropped, after, s);
  }

  /** The view of `k` at `root` is unchanged exactly when the version it shows is not dropped. */
  lemma ViewKeptIffNotDropped(db: Db, flushed: set<Slot>, dropped: set<Place>, after: Db, k: Pubkey, root: Slot)
    requires Consistent(db) && FlushOk(db, flushed, dropped) && FlushedTo(db, flushed, dropped, after)
    ensures Consistent(after)
    ensures View(after, k, root) == View(db, k, root)
            <==> Versions(db, k, root) == {} || (k, MaxOf(Versions(db, k, root))) !in dropped
  {
    FlushKeepsConsistent(db, flushed, dropped, after);
    var before, now := Versions(db, k, root), Versions(after, k, root);
    forall s | s in now ensures s in before {
      assert SlotFlushedTo(db, flushed, dropped, after, s);
    }
    if before != {} {
      var newest := MaxOf(before);
      if (k, newest) in dropped {
        assert newest !in now;
      } else {
        KeptVersion(db, flushed, dropped, after, k, newest);
        assert newest in now;
      }
    }
  }

  lemma NewestNotDropped(db: Db, flushed: set<Slot>, bound: Option<Slot>, dropped: set<Place>, k: Pubkey, root: Slot)
    requires Consistent(db) && FlushOk(db, flushed, dropped)
    requires DropsSuperseded(db.cache, flushed, bound, dropped)
    requires AboveCleaned(flushed, bound, root)
    requires Versions(db, k, root) != {}
    ensures (k, MaxOf(Versions(db, k, root))) !in dropped
  {
    var newest := MaxOf(Versions(db, k, root));
    if Superseded(db.cache, flushed, bound, k, newest) {
      var t :| t in flushed && newest < t && WithinBound(t, bound) && t in db.cache && k in db.cache[t];
      assert Cached(db, k, t);
      assert t in Versions(db, k, root);
    }
  }

  /** A cleaning flush keeps the view of every reader at or above the roots it cleans, and a flush that
      drops nothing keeps every view. */
  lemma FlushKeepsViews(db: Db, flushed: set<Slot>, clean: bool, bound: Option<Slot>, dropped: set<Place>, after: Db,
                        k: Pubkey, root: Slot)
    requires Consistent(db) && FlushOk(db, flushed, dropped) && FlushedTo(db, flushed, dropped, after)
    requires if clean then DropsSuperseded(db.cache, flushed, bound, dropped) && AboveCleaned(flushed, bound, root)
             else dropped == {}
    ensures Consistent(after) && View(after, k, root) == View(db, k, root)
  {
    ViewKeptIffNotDropped(db, flushed, dropped, after, k, root);
    if clean && Versions(db, k, root) != {} {
      NewestNotDropped(db, flushed, bound, dropped, k, root);
    }
  }

  // ----- Flushing one slot after the other -----

  lemma SlotFlushOneMore(
    db: Db, flushed: set<Slot>, dropped: set<Place>, mid: Db, s: Slot, also: set<Place>, after: Db, t: Slot)
    requires forall p | p in dropped :: p.1 in flushed
    requires forall p | p in also :: p.1 == s
    requires s !in flushed
    requires SlotFlushedTo(db, flushed, dropped, mid, t) && SlotFlushedTo(mid, {s}, also, after, t)
    ensures SlotFlushedTo(db, flushed + {s}, dropped + also, after, t)
  {
    if t in flushed {
      assert forall k :: (k, t) in dropped + also <==> (k, t) in dropped;
      assert KeepsSome(db, dropped + also, t) <==> KeepsSome(db, dropped, t);
    } else if t == s {
      assert forall k :: (k, t) in dropped + also <==> (k, t) in also;
      assert KeepsSome(db, dropped + also, t) <==> KeepsSome(mid, also, t);
    }
  }

  lemma FlushOneMore(db: Db, flushed: set<Slot>, dropped: set<Place>, mid: Db, s: Slot, also: set<Place>, after: Db)
    requires FlushOk(db, flushed, dropped) && FlushedTo(db, flushed, dropped, mid)
    requires FlushOk(mid, {s}, also) && FlushedTo(mid, {s}, also, after)
    ensures FlushOk(db, flushed + {s}, dropped + also)
    ensures FlushedTo(db, flushed + {s}, dropped + also, after)
  {
    assert SlotFlushedTo(db, flushed, dropped, mid, s);
    forall t ensures SlotFlushedTo(db, flushed + {s}, dropped + also, after, t) {
      assert SlotFlushedTo(db, flushed, dropped, mid, t) && SlotFlushedTo(mid, {s}, also, after, t);
      SlotFlushOneMore(db, flushed, dropped, mid, s, also, after, t);
    }
  }

  /** Dropping from slot `s` what was written from the slots above it. */
  lemma SupersededOneMore(cache: Files, flushed: set<Slot>, bound: Option<Slot>, dropped: set<Place>,
                          written: set<Pubkey>, s: Slot, also: set<Place>)
    requires DropsSuperseded(cache, flushed, bound, dropped)
    requires forall t | t in flushed :: s < t && t in cache
    requires WrittenFrom(cache, flushed, bound, written)
    requires s in cache
    requires forall k: Pubkey, t: Slot ::
      (k, t) in also <==> t == s && k in cache[s] && k in written && WithinBound(s, bound)
    ensures DropsSuperseded(cache, flushed + {s}, bound, dropped + also)
  {
    forall k: Pubkey, t: Slot ensures (k, t) in dropped + also <==>
      t in flushed + {s} && t in cache && k in cache[t] && Superseded(cache, flushed + {s}, bound, k, t)
    {
      if t == s {
        assert k in written && WithinBound(s, bound) <==> Superseded(cache, flushed + {s}, bound, k, s);
      } else {
        assert Superseded(cache, flushed, bound, k, t) ==> Superseded(cache, flushed + {s}, bound, k, t);
      }
    }
  }

  // ----- The flush -----

  /** What one slot's flush drops, given the keys already written from later roots; `cleaning` tells
      whether the slot is subject to cleaning. */
  ghost predicate SlotDrops(
    accounts: map<Pubkey, Account>, written: set<Pubkey>, cleaning: bool, s: Slot, dropped: set<Place>)
  {
    forall k: Pubkey, t: Slot :: (k, t) in dropped <==> t == s && k in accounts && cleaning && k in written
  }

  lemma SlotMoves(db: Db, slot: Slot, flushed: map<Pubkey, Account>, dropped: set<Place>, after: Db)
    requires Consistent(db) && slot in db.cache && slot in db.roots
    requires forall p | p in dropped :: p.1 == slot && p.0 in db.cache[slot]
    requires forall k :: k in flushed <==> k in db.cache[slot] && (k, slot) !in dropped
    requires forall k | k in flushed :: flushed[k] == db.cache[slot][k]
    requires after.index == db.index - dropped && after.cache == db.cache - {slot}
    requires if flushed == map[] then after.roots == db.roots - {slot} && after.storages == db.storages
             else after.roots == db.roots && after.storages == db.storages[slot := flushed]
    ensures FlushOk(db, {slot}, dropped) && FlushedTo(db, {slot}, dropped, after)
  {
    if flushed == map[] {
      forall k | k in db.cache[slot] ensures (k, slot) in dropped {
        assert k !in flushed;
      }
    } else {
      var k :| k in flushed;
      assert k in db.cache[slot] && (k, slot) !in dropped;
    }
  }

  predicate Uncleaned(uncleaned: map<Slot, set<Pubkey>>, s: Slot, k: Pubkey) {
    s in uncleaned && k in uncleaned[s]
  }

  /** The flushed accounts are recorded for a later clean, beside what was recorded before. */
  ghost predicate RecordedTo(before: map<Slot, set<Pubkey>>, cache: Files, flushed: set<Slot>, dropped: set<Place>,
                             after: map<Slot, set<Pubkey>>) {
    forall s, k :: Uncleaned(after, s, k) <==>
      Uncleaned(before, s, k) || (s in flushed && s in cache && k in cache[s] && (k, s) !in dropped)
  }

  /** The keys written so far, once a slot with the given accounts is flushed. */
  function NowWritten(accounts: map<Pubkey, Account>, cleaning: bool, written: set<Pubkey>): set<Pubkey> {
    if cleaning then written + accounts.Keys else written
  }

  class AccountsDb {
    var cache: Files
    var storages: Files
    var index: set<Place>
    var roots: set<Slot>
    var maybeUnflushedRoots: set<Slot>
    var maxFlushedRoot: Slot
    var uncleanedPubkeys: map<Slot, set<Pubkey>>
    /** Slots that are being flushed or removed at the moment. */
    var slotsUnderContention: set<Slot>
    /** How often the threads that wait for a slot to be flushed were woken. */
    var wakeups: nat
    const minOngoingScanRoot: Option<Slot>

    ghost function Value(): Db
      reads this
    {
      Db(cache, storages, index, roots)
    }

    /** Unflushed roots that are still cached are alive roots. */
    ghost predicate Valid()
      reads this
    {
      Consistent(Value()) && forall s | s in maybeUnflushedRoots && s in cache :: s in roots
    }

    constructor (contended: set<Slot>, minScanRoot: Option<Slot>)
      ensures Valid() && Value() == Db(map[], map[], {}, {})
      ensures slotsUnderContention == contended && minOngoingScanRoot == minScanRoot
      ensures maybeUnflushedRoots == {} && maxFlushedRoot == 0 && uncleanedPubkeys == map[] && wakeups == 0
    {
      cache, storages, index, roots, maybeUnflushedRoots := map[], map[], {}, {}, {};
      maxFlushedRoot, uncleanedPubkeys := 0, map[];
      slotsUnderContention, wakeups, minOngoingScanRoot := contended, 0, minScanRoot;
    }

    /** Take the unflushed roots up to the bound. */
    method ClearRoots(maxRoot: Option<Slot>) returns (cleared: set<Slot>)
      modifies this`maybeUnflushedRoots
      ensures cleared + maybeUnflushedRoots == old(maybeUnflushedRoots)
      ensures forall s | s in cleared :: maxRoot.None? || s <= maxRoot.value
      ensures forall s | s in maybeUnflushedRoots :: maxRoot.Some? && s > maxRoot.value
    {
      if maxRoot.Some? {
        var greaterThanMaxRoot := set s | s in maybeUnflushedRoots && s >= maxRoot.value + 1;
        cleared := maybeUnflushedRoots - greaterThanMaxRoot;
        maybeUnflushedRoots := greaterThanMaxRoot;
      } else {
        cleared := maybeUnflushedRoots;
        maybeUnflushedRoots := {};
      }
    }

    /** Divide the accounts of a slot: flush those not written yet, drop the others. */
    static method SelectFlushed(slot: Slot, accounts: map<Pubkey, Account>, cleaning: bool, written: set<Pubkey>)
      returns (flushed: map<Pubkey, Account>, dropped: set<Place>, nowWritten: set<Pubkey>)
      ensures SlotDrops(accounts, written, cleaning, slot, dropped)
      ensures forall k :: k in flushed <==> k in accounts && (k, slot) !in dropped
      ensures forall k | k in flushed :: flushed[k] == accounts[k]
      ensures nowWritten == if cleaning then written + accounts.Keys else written
    {
      flushed, dropped, nowWritten := map[], {}, written;
      var rest := accounts.Keys;
      while rest != {}
        invariant rest <= accounts.Keys
        invariant forall k: Pubkey, t: Slot :: (k, t) in dropped <==>
          t == slot && k in accounts && k !in rest && cleaning && k in written
        invariant forall k :: k in flushed <==> k in accounts && k !in rest && (k, slot) !in dropped
        invariant forall k | k in flushed :: flushed[k] == accounts[k]
        invariant nowWritten == if cleaning then written + (accounts.Keys - rest) else written
      {
        var k :| k in rest;
        rest := rest - {k};
        if cleaning && k in nowWritten {
          dropped := dropped + {(k, slot)};
        } else {
          flushed := flushed[k := accounts[k]];
          if cleaning {
            nowWritten := nowWritten + {k};
          }
        }
      }
    }

    /** Flush one cached slot.  The assertions of the source hold: the slot has no storage yet and the
        dropped accounts are in the index. */
    method DoFlushSlotCache(slot: Slot, clean: bool, maxCleanRoot: Option<Slot>, written: set<Pubkey>)
      returns (ghost dropped: set<Place>, nowWritten: set<Pubkey>)
      requires Consistent(Value()) && slot in cache && slot in roots && slot in slotsUnderContention
      modifies this`cache, this`storages, this`index, this`roots, this`uncleanedPubkeys
      ensures FlushOk(old(Value()), {slot}, dropped) && FlushedTo(old(Value()), {slot}, dropped, Value())
      ensures SlotDrops(old(cache[slot]), written, clean && WithinBound(slot, maxCleanRoot), slot, dropped)
      ensures nowWritten == NowWritten(old(cache[slot]), clean && WithinBound(slot, maxCleanRoot), written)
      ensures RecordedTo(old(uncleanedPubkeys), old(cache), {slot}, dropped, uncleanedPubkeys)
    {
      var cleaning := clean && WithinBound(slot, maxCleanRoot);
      var accounts := cache[slot];
      var flushed, purged, now := SelectFlushed(slot, accounts, cleaning, written);
      dropped, nowWritten := purged, now;
      assert slot !in storages;
      assert purged <= index by {
        forall p | p in purged ensures p in index {
          assert p == (p.0, slot) && Cached(Value(), p.0, slot);
        }
      }
      index := index - purged;
      if flushed == map[] {
        roots := roots - {slot};
      } else {
        storages := storages[slot := flushed];
      }
      cache := cache - {slot};
      var known := if slot in uncleanedPubkeys then uncleanedPubkeys[slot] else {};
      uncleanedPubkeys := uncleanedPubkeys[slot := known + flushed.Keys];
      SlotMoves(old(Value()), slot, flushed, dropped, Value());
    }

    /** Flush a slot unless another thread works on it or it is no longer cached.  The slot is reserved
        for the flush and given back, in which the assertion of the source holds, and the waiting threads
        are woken. */
    method FlushSlotCacheWithClean(slot: Slot, clean: bool, maxCleanRoot: Option<Slot>, written: set<Pubkey>)
      returns (ran: bool, ghost dropped: set<Place>, nowWritten: set<Pubkey>)
      requires Consistent(Value()) && (slot in cache ==> slot in roots)
      modifies this`cache, this`storages, this`index, this`roots, this`uncleanedPubkeys
      modifies this`slotsUnderContention, this`wakeups
      ensures slotsUnderContention == old(slotsUnderContention)
      ensures wakeups == old(wakeups) + if slot in slotsUnderContention then 0 else 1
      ensures ran == (slot in old(cache) && slot !in slotsUnderContention)
      ensures ran ==>
        && FlushOk(old(Value()), {slot}, dropped) && FlushedTo(old(Value()), {slot}, dropped, Value())
        && SlotDrops(old(cache[slot]), written, clean && WithinBound(slot, maxCleanRoot), slot, dropped)
        && nowWritten == NowWritten(old(cache[slot]), clean && WithinBound(slot, maxCleanRoot), written)
        && RecordedTo(old(uncleanedPubkeys), old(cache), {slot}, dropped, uncleanedPubkeys)
      ensures !ran ==> Value() == old(Value()) && uncleanedPubkeys == old(uncleanedPubkeys) && nowWritten == written
    {
      ran, dropped, nowWritten := false, {}, written;
      if slot !in slotsUnderContention {
        slotsUnderContention := slotsUnderContention + {slot};
        if slot in cache {
          ran := true;
          dropped, nowWritten := DoFlushSlotCache(slot, clean, maxCleanRoot, written);
        }
        assert slot in slotsUnderContention;
        slotsUnderContention := slotsUnderContention - {slot};
        wakeups := wakeups + 1;
      }
    }

    /** The roots in `flushed` have been flushed since `before`, without the accounts in `dropped`. */
    ghost predicate Flushed(before: Db, uncleaned: map<Slot, set<Pubkey>>, flushed: set<Slot>, dropped: set<Place>)
      reads this
    {
      && FlushOk(before, flushed, dropped) && FlushedTo(before, flushed, dropped, Value())
      && RecordedTo(uncleaned, before.cache, flushed, dropped, uncleanedPubkeys)
    }

    /** Walk the roots from the highest to the lowest, remembering the keys written on the way. */
    method FlushRoots(flushRoots: set<Slot>, shouldClean: bool, bound: Option<Slot>)
      returns (ghost flushed: set<Slot>, ghost dropped: set<Place>, flushedRoots: nat)
      requires Consistent(Value()) && forall s | s in flushRoots && s in cache :: s in roots
      modifies this`cache, this`storages, this`index, this`roots, this`uncleanedPubkeys
      modifies this`slotsUnderContention, this`wakeups
      ensures slotsUnderContention == old(slotsUnderContention)
      ensures wakeups >= old(wakeups) + |flushed|
      ensures flushed == set s | s in flushRoots && s in old(cache) && s !in slotsUnderContention
      ensures Flushed(old(Value()), old(uncleanedPubkeys), flushed, dropped)
      ensures if shouldClean then DropsSuperseded(old(cache), flushed, bound, dropped) else dropped == {}
      ensures flushedRoots == |flushed|
    {
      ghost var before, uncleaned := Value(), uncleanedPubkeys;
      var written: set<Pubkey> := {};
      flushed, dropped, flushedRoots := {}, {}, 0;
      var todo := flushRoots;
      while todo != {}
        invariant wakeups >= old(wakeups) + flushedRoots
        invariant todo <= flushRoots && slotsUnderContention == old(slotsUnderContention)
        invariant Flushed(before, uncleaned, flushed, dropped) && Consistent(Value())
        invariant forall s :: s in flushed <==>
          s in flushRoots && s !in todo && s in before.cache && s !in slotsUnderContention
        invariant forall s, t | s in todo && t in flushed :: s < t
        invariant |flushed| == flushedRoots
        invariant if shouldClean then DropsSuperseded(before.cache, flushed, bound, dropped) else dropped == {}
        invariant shouldClean ==> WrittenFrom(before.cache, flushed, bound, written)
        decreases |todo|
      {
        var root := MaxOf(todo);
        todo := todo - {root};
        assert forall s | s in todo :: s < root;
        var ran, also, nowWritten := FlushNext(root, shouldClean, bound, written, before, uncleaned, flushed, dropped);
        written := nowWritten;
        if ran {
          flushed, dropped, flushedRoots := flushed + {root}, dropped + also, flushedRoots + 1;
        }
      }
    }

    /** The step of the walk: flush the next lower root. */
    method FlushNext(root: Slot, shouldClean: bool, bound: Option<Slot>, written: set<Pubkey>,
                     ghost before: Db, ghost uncleaned: map<Slot, set<Pubkey>>, ghost flushed: set<Slot>,
                     ghost dropped: set<Place>)
      returns (ran: bool, ghost also: set<Place>, nowWritten: set<Pubkey>)
      requires Flushed(before, uncleaned, flushed, dropped) && Consistent(Value())
      requires root !in flushed && (root in before.cache ==> root in before.roots)
      requires forall t | t in flushed :: root < t
      requires if shouldClean then DropsSuperseded(before.cache, flushed, bound, dropped) else dropped == {}
      requires shouldClean ==> WrittenFrom(before.cache, flushed, bound, written)
      modifies this`cache, this`storages, this`index, this`roots, this`uncleanedPubkeys
      modifies this`slotsUnderContention, this`wakeups
      ensures Consistent(Value()) && slotsUnderContention == old(slotsUnderContention)
      ensures wakeups == old(wakeups) + if root in slotsUnderContention then 0 else 1
      ensures ran == (root in before.cache && root !in slotsUnderContention)
      ensures ran ==> Flushed(before, uncleaned, flushed + {root}, dropped + also)
      ensures ran ==> if shouldClean
        then DropsSuperseded(before.cache, flushed + {root}, bound, dropped + also)
             && WrittenFrom(before.cache, flushed + {root}, bound, nowWritten)
        else dropped + also == {}
      ensures !ran ==> Flushed(before, uncleaned, flushed, dropped) && nowWritten == written
    {
      ghost var mid := Value();
      assert SlotFlushedTo(before, flushed, dropped, mid, root);
      ran, also, nowWritten := FlushSlotCacheWithClean(root, shouldClean, bound, written);
      if ran {
        FlushOneMore(before, flushed, dropped, mid, root, also, Value());
        FlushKeepsConsistent(mid, {root}, also, Value());
        if shouldClean {
          SupersededOneMore(before.cache, flushed, bound, dropped, written, root, also);
        }
      }
    }

    /** Raise the maximum flushed root to the highest of the flushed ones. */
    method SetMaxFlushRoot(flushedRoots: set<Slot>)
      requires flushedRoots != {}
      modifies this`maxFlushedRoot
      ensures maxFlushedRoot == MaxOf(flushedRoots + {old(maxFlushedRoot)})
    {
      if MaxOf(flushedRoots) > maxFlushedRoot {
        maxFlushedRoot := MaxOf(flushedRoots);
      }
    }

    /** Flush the unflushed roots up to `requested`.  A cleaning flush drops exactly the accounts that a
        later flushed root supersedes; no reader at or above the cleaned roots sees a difference, and
        without cleaning no reader at all. */
    method FlushRootedAccountsCache(requested: Option<Slot>, shouldClean: bool)
      returns (ghost flushed: set<Slot>, ghost dropped: set<Place>, newRoots: nat, flushedRoots: nat)
      requires Valid()
      modifies this
      ensures Valid() && slotsUnderContention == old(slotsUnderContention)
      ensures wakeups >= old(wakeups) + flushedRoots
      ensures flushed ==
        set s | s in UpTo(old(maybeUnflushedRoots), requested) && s in old(cache) && s !in slotsUnderContention
      ensures Flushed(old(Value()), old(uncleanedPubkeys), flushed, dropped)
      ensures if shouldClean
        then DropsSuperseded(old(cache), flushed, MaxCleanRoot(minOngoingScanRoot, requested), dropped)
        else dropped == {}
      ensures maybeUnflushedRoots == old(maybeUnflushedRoots) - UpTo(old(maybeUnflushedRoots), requested)
      ensures maxFlushedRoot == MaxOf(UpTo(old(maybeUnflushedRoots), requested) + {old(maxFlushedRoot)})
      ensures newRoots == |UpTo(old(maybeUnflushedRoots), requested)| && flushedRoots == |flushed|
      ensures forall k, root
        | (shouldClean ==> AboveCleaned(flushed, MaxCleanRoot(minOngoingScanRoot, requested), root)) ::
        View(Value(), k, root) == old(View(Value(), k, root))
    {
      ghost var before := Value();
      var bound := if shouldClean then MaxCleanRoot(minOngoingScanRoot, requested) else None;
      var cleared := ClearRoots(requested);
      SplitIsUpTo(old(maybeUnflushedRoots), cleared, maybeUnflushedRoots, requested);
      flushed, dropped, flushedRoots := FlushRoots(cleared, shouldClean, bound);
      newRoots := |cleared|;
      if cleared != {} {
        SetMaxFlushRoot(cleared);
      }
      FlushKeepsConsistent(before, flushed, dropped, Value());
      forall s | s in maybeUnflushedRoots && s in cache ensures s in roots {
        assert SlotFlushedTo(before, flushed, dropped, Value(), s);
      }
      forall k, root | (shouldClean ==> AboveCleaned(flushed, bound, root))
        ensures View(Value(), k, root) == View(before, k, root)
      {
        FlushKeepsViews(before, flushed, shouldClean, bound, dropped, Value(), k, root);
      }
    }
  }
}
