/** The byte and account counts of the write cache: one pair per slot cache and shared totals, kept up
    to date by inserts and by the final drop of a slot cache. */
module CacheAccounting {
  import opened Types
  import opened Sums

  // ----- Slot caches -----

  /** Identifies a slot cache as long as somebody refers to it. */
  type CacheId = nat

  datatype SlotCache = SlotCache(accounts: map<Pubkey, Account>, size: nat, accountsCount: nat)

  function DataLen(account: Account): int { |account.data| }

  function SizeOf(slotCache: SlotCache): int { slotCache.size }

  function CountOf(slotCache: SlotCache): int { slotCache.accountsCount }

  /** The counts of a slot cache match its accounts. */
  ghost predicate Exact(slotCache: SlotCache) {
    slotCache.size == SumOver(slotCache.accounts, DataLen) && slotCache.accountsCount == |slotCache.accounts|
  }

  /** What an insert does to the counts of a slot cache. */
  lemma InsertCounts(slotCache: SlotCache, key: Pubkey, account: Account)
    requires Exact(slotCache)
    ensures SumOver(slotCache.accounts[key := account], DataLen)
            + (if key in slotCache.accounts then |slotCache.accounts[key].data| else 0)
            == slotCache.size + |account.data|
    ensures key in slotCache.accounts ==> |slotCache.accounts[key].data| <= slotCache.size
    ensures |slotCache.accounts[key := account]| == slotCache.accountsCount + if key in slotCache.accounts then 0 else 1
  {
    SumUpdates(slotCache.accounts, DataLen, key, account);
    if key in slotCache.accounts {
      SumSplits(slotCache.accounts, DataLen, key);
      SumIsNonNegative(slotCache.accounts - {key}, DataLen);
      assert slotCache.accounts[key := account].Keys == slotCache.accounts.Keys;
      assert |slotCache.accounts[key := account]| == |slotCache.accounts[key := account].Keys|;
    }
  }

  type Arena = map<CacheId, SlotCache>

  /** The shared totals are the sums over all slot caches not yet dropped. */
  ghost predicate TotalsExact(slotCaches: Arena, totalSize: nat, totalAccountsCount: nat) {
    totalSize == SumOver(slotCaches, SizeOf) && totalAccountsCount == SumOver(slotCaches, CountOf)
  }

  lemma TotalsUpdate(slotCaches: Arena, totalSize: nat, totalAccountsCount: nat, id: CacheId, updated: SlotCache)
    requires TotalsExact(slotCaches, totalSize, totalAccountsCount) && id in slotCaches
    ensures slotCaches[id].size <= totalSize && slotCaches[id].accountsCount <= totalAccountsCount
    ensures TotalsExact(slotCaches[id := updated], totalSize - slotCaches[id].size + updated.size,
                        totalAccountsCount - slotCaches[id].accountsCount + updated.accountsCount)
    ensures TotalsExact(
      slotCaches - {id}, totalSize - slotCaches[id].size, totalAccountsCount - slotCaches[id].accountsCount)
  {
    SumSplits(slotCaches, SizeOf, id);
    SumSplits(slotCaches, CountOf, id);
    SumUpdates(slotCaches, SizeOf, id, updated);
    SumUpdates(slotCaches, CountOf, id, updated);
    SumIsNonNegative(slotCaches - {id}, SizeOf);
    SumIsNonNegative(slotCaches - {id}, CountOf);
  }

  lemma TotalsAddEmpty(slotCaches: Arena, totalSize: nat, totalAccountsCount: nat, id: CacheId)
    requires TotalsExact(slotCaches, totalSize, totalAccountsCount) && id !in slotCaches
    ensures TotalsExact(slotCaches[id := SlotCache(map[], 0, 0)], totalSize, totalAccountsCount)
    ensures Exact(SlotCache(map[], 0, 0))
  {
    SumUpdates(slotCaches, SizeOf, id, SlotCache(map[], 0, 0));
    SumUpdates(slotCaches, CountOf, id, SlotCache(map[], 0, 0));
  }

  class AccountsCache {
    /** All slot caches that have not been dropped, including removed ones that are still referenced. */
    var slotCaches: Arena
    /** The slot caches that can be found by slot. */
    var cache: map<Slot, CacheId>
    var totalSize: nat
    var totalAccountsCount: nat
    var nextId: CacheId

    ghost predicate Valid()
      reads this
    {
      && (forall id | id in slotCaches :: id < nextId && Exact(slotCaches[id]))
      && (forall s | s in cache :: cache[s] in slotCaches)
      && (forall s, t | s in cache && t in cache && s != t :: cache[s] != cache[t])
      && TotalsExact(slotCaches, totalSize, totalAccountsCount)
    }

    constructor ()
      ensures Valid() && cache == map[] && slotCaches == map[]
    {
      slotCaches, cache, totalSize, totalAccountsCount, nextId := map[], map[], 0, 0, 0;
    }

    /** The counts after an insert: a slot cache's own ones and the totals change by the same amount. */
    static method Recount(slotCache: SlotCache, total: nat, totalCount: nat, key: Pubkey, account: Account)
      returns (updated: SlotCache, newTotal: nat, newTotalCount: nat)
      requires Exact(slotCache) && slotCache.size <= total && slotCache.accountsCount <= totalCount
      ensures Exact(updated) && updated.accounts == slotCache.accounts[key := account]
      ensures newTotal == total - slotCache.size + updated.size
      ensures newTotalCount == totalCount - slotCache.accountsCount + updated.accountsCount
    {
      InsertCounts(slotCache, key, account);
      var dataLen := |account.data|;
      var size, count := slotCache.size, slotCache.accountsCount;
      newTotal, newTotalCount := total, totalCount;
      if key in slotCache.accounts {
        var oldLen := |slotCache.accounts[key].data|;
        if dataLen > oldLen {
          size, newTotal := size + (dataLen - oldLen), newTotal + (dataLen - oldLen);
        } else if oldLen > dataLen {
          size, newTotal := size - (oldLen - dataLen), newTotal - (oldLen - dataLen);
        }
      } else {
        size, newTotal := size + dataLen, newTotal + dataLen;
        count, newTotalCount := count + 1, newTotalCount + 1;
      }
      updated := SlotCache(slotCache.accounts[key := account], size, count);
    }

    /** Insert an account into a slot cache, which may have been removed from the cache already. */
    method Insert(id: CacheId, key: Pubkey, account: Account)
      requires Valid() && id in slotCaches
      modifies this`slotCaches, this`totalSize, this`totalAccountsCount
      ensures Valid()
      ensures slotCaches.Keys == old(slotCaches).Keys
      ensures slotCaches[id].accounts == old(slotCaches)[id].accounts[key := account]
      ensures forall other | other in slotCaches && other != id :: slotCaches[other] == old(slotCaches)[other]
    {
      TotalsUpdate(slotCaches, totalSize, totalAccountsCount, id, slotCaches[id]);
      var updated, newTotal, newTotalCount := Recount(slotCaches[id], totalSize, totalAccountsCount, key, account);
      TotalsUpdate(slotCaches, totalSize, totalAccountsCount, id, updated);
      totalSize, totalAccountsCount := newTotal, newTotalCount;
      slotCaches := slotCaches[id := updated];
    }

    /** Find the slot's cache, or make an empty one. */
    method EntryFor(slot: Slot) returns (id: CacheId)
      requires Valid()
      modifies this
      ensures Valid() && slot in cache && cache[slot] == id
      ensures slot in old(cache) ==> cache == old(cache) && slotCaches == old(slotCaches)
      ensures slot !in old(cache) ==>
        && id !in old(slotCaches) && cache == old(cache)[slot := id]
        && slotCaches == old(slotCaches)[id := SlotCache(map[], 0, 0)]
    {
      if slot in cache {
        return cache[slot];
      }
      id := nextId;
      TotalsAddEmpty(slotCaches, totalSize, totalAccountsCount, id);
      slotCaches, cache, nextId := slotCaches[id := SlotCache(map[], 0, 0)], cache[slot := id], nextId + 1;
    }

    method Store(slot: Slot, key: Pubkey, account: Account)
      requires Valid()
      modifies this
      ensures Valid() && slot in cache
      ensures slotCaches[cache[slot]].accounts ==
        (if slot in old(cache) then old(slotCaches)[old(cache)[slot]].accounts else map[])[key := account]
      ensures forall id | id in old(slotCaches) && id != cache[slot] ::
        id in slotCaches && slotCaches[id] == old(slotCaches)[id]
    {
      var id := EntryFor(slot);
      Insert(id, key, account);
    }

    /** Take a slot out of the cache; its slot cache lives on while it is referenced, and still counts. */
    method RemoveSlot(slot: Slot) returns (removed: Option<CacheId>)
      requires Valid()
      modifies this`cache
      ensures Valid() && cache == old(cache) - {slot}
      ensures removed == if slot in old(cache) then Some(old(cache)[slot]) else None
      ensures removed.Some? ==> forall s | s in cache :: cache[s] != removed.value
    {
      removed := None;
      if slot in cache {
        removed := Some(cache[slot]);
        cache := cache - {slot};
      }
    }

    /** The last reference goes away: the totals lose exactly what the slot cache contributed. */
    method Drop(id: CacheId)
      requires Valid() && id in slotCaches && forall s | s in cache :: cache[s] != id
      modifies this`slotCaches, this`totalSize, this`totalAccountsCount
      ensures Valid() && slotCaches == old(slotCaches) - {id}
      ensures totalSize + SumOver(old(slotCaches)[id].accounts, DataLen) == old(totalSize)
      ensures totalAccountsCount + |old(slotCaches)[id].accounts| == old(totalAccountsCount)
    {
      TotalsUpdate(slotCaches, totalSize, totalAccountsCount, id, slotCaches[id]);
      totalSize := totalSize - slotCaches[id].size;
      totalAccountsCount := totalAccountsCount - slotCaches[id].accountsCount;
      slotCaches := slotCaches - {id};
    }
  }
}
