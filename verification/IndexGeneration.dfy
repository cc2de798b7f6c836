/** Index generation at startup: every storage is scanned once, by any thread and in any order; all
    accounts are mixed into the hash and the older duplicates are mixed out again. */
module IndexGeneration {
  import opened Types
  import opened Rebuild
  import opened Tally
  import opened Sums
  import LtHash
  import StorageReader

  /** For each key the slots at which the index has it. */
  type Index = map<Pubkey, set<Slot>>

  predicate HasEntry(index: Index, k: Pubkey, s: Slot) { k in index && s in index[k] }

  // ----- Sets of stored accounts -----

  function PlacesIn(files: Files, slots: set<Slot>): set<Place> {
    set s, k | s in slots && s in files && k in files[s] :: (s, k)
  }

  function KeysOf(files: Files): set<Pubkey> {
    set s, k | s in files && k in files[s] :: k
  }

  /** The newest version of each of the keys. */
  ghost function Newest(files: Files, keys: set<Pubkey>): set<Place> {
    set k | k in keys && Holders(files, k) != {} :: (MaxOf(Holders(files, k)), k)
  }

  /** The versions of `k` in the given slots. */
  function At(slots: set<Slot>, k: Pubkey): set<Place> {
    set s | s in slots :: (s, k)
  }

  /** The older versions of `k`. */
  ghost function OlderOf(files: Files, k: Pubkey): set<Place> {
    if Holders(files, k) == {} then {} else At(Holders(files, k) - {MaxOf(Holders(files, k))}, k)
  }

  /** The older versions of the keys. */
  ghost function Older(files: Files, keys: set<Pubkey>): set<Place> {
    set k, p | k in keys && p in OlderOf(files, k) :: p
  }

  lemma AllIsNewestAndOlder(files: Files)
    ensures PlacesIn(files, files.Keys) == Newest(files, KeysOf(files)) + Older(files, KeysOf(files))
    ensures Newest(files, KeysOf(files)) !! Older(files, KeysOf(files))
  {
    var all, newest, older := PlacesIn(files, files.Keys), Newest(files, KeysOf(files)), Older(files, KeysOf(files));
    forall p | p in all ensures p in newest + older {
      var k := p.1;
      assert k in KeysOf(files) && p.0 in Holders(files, k);
      if p.0 != MaxOf(Holders(files, k)) {
        assert p in OlderOf(files, k);
      }
    }
    forall p | p in older ensures p in all && p !in newest {
      var k :| k in KeysOf(files) && p in OlderOf(files, k);
      assert p.0 in Holders(files, k);
    }
    forall p | p in newest ensures p in all {
      assert p.0 in Holders(files, p.1);
    }
  }

  /** Keys that are in one slot only have no older version. */
  lemma OnlyDuplicatesAreOlder(files: Files, duplicates: set<Pubkey>)
    requires forall k :: k in duplicates <==> |Holders(files, k)| > 1
    ensures Older(files, duplicates) == Older(files, KeysOf(files))
  {
    forall p | p in Older(files, KeysOf(files)) ensures p in Older(files, duplicates) {
      var k :| k in KeysOf(files) && p in OlderOf(files, k);
      TwoAreMoreThanOne(Holders(files, k), p.0, MaxOf(Holders(files, k)));
    }
    forall p | p in Older(files, duplicates) ensures p in Older(files, KeysOf(files)) {
      var k :| k in duplicates && p in OlderOf(files, k);
      assert p.0 in Holders(files, k);
      assert k in KeysOf(files);
    }
  }

  lemma OlderAdds(files: Files, digest: Digest, a: set<Pubkey>, b: set<Pubkey>)
    requires a !! b
    ensures Sum(files, digest, Older(files, a + b))
         == Plus(Sum(files, digest, Older(files, a)), Sum(files, digest, Older(files, b)))
    ensures |Older(files, a + b)| == |Older(files, a)| + |Older(files, b)|
  {
    assert Older(files, a + b) == Older(files, a) + Older(files, b);
    SumUnion(files, digest, Older(files, a), Older(files, b));
  }

  lemma OlderAddsOne(files: Files, digest: Digest, done: set<Pubkey>, k: Pubkey)
    requires k !in done
    ensures Sum(files, digest, Older(files, done + {k}))
         == Plus(Sum(files, digest, Older(files, done)), Sum(files, digest, OlderOf(files, k)))
    ensures |Older(files, done + {k})| == |Older(files, done)| + |OlderOf(files, k)|
  {
    assert Older(files, {k}) == OlderOf(files, k) by { assert k in {k}; }
    OlderAdds(files, digest, done, {k});
  }

  lemma TwoAreMoreThanOne(slots: set<Slot>, a: Slot, b: Slot)
    requires a in slots && b in slots && a != b
    ensures |slots| > 1
  {
    assert slots == slots - {a, b} + {a, b};
    assert |slots| == |slots - {a, b}| + |{a, b}|;
  }

  /** What the newest version of a key contributes is decided by whether the account is live. */
  lemma NewestWeighsLive(files: Files, digest: Digest, k: Pubkey)
    requires Holders(files, k) != {}
    ensures Weight(files, digest, (MaxOf(Holders(files, k)), k)) ==
      match Live(files, k) { case None => Zero() case Some(account) => Tally(digest(k, account), |account.data|) }
  {
    assert MaxOf(Holders(files, k)) in Holders(files, k);
  }

  lemma NewestAdds(files: Files, digest: Digest, done: set<Pubkey>, k: Pubkey)
    requires k !in done && Holders(files, k) != {}
    ensures Sum(files, digest, Newest(files, done + {k})) ==
            Plus(Sum(files, digest, Newest(files, done)), Weight(files, digest, (MaxOf(Holders(files, k)), k)))
  {
    var p := (MaxOf(Holders(files, k)), k);
    assert Newest(files, done + {k}) == Newest(files, done) + {p};
    SumAdds(files, digest, Newest(files, done), p);
  }

  /** The accounts a restart reads back from the storages, among the given keys. */
  ghost function LiveAmong(files: Files, keys: set<Pubkey>): map<Pubkey, Account> {
    map k | k in keys && Live(files, k).Some? :: Live(files, k).value
  }

  ghost function Restored(files: Files): map<Pubkey, Account> { LiveAmong(files, KeysOf(files)) }

  /** One more key adds the newest version of its account, if that is live. */
  lemma LiveAdds(files: Files, digest: Digest, done: set<Pubkey>, k: Pubkey)
    requires k !in done && Holders(files, k) != {}
    ensures AccountsTally(LiveAmong(files, done + {k}), digest) ==
            Plus(AccountsTally(LiveAmong(files, done), digest), Weight(files, digest, (MaxOf(Holders(files, k)), k)))
  {
    NewestWeighsLive(files, digest, k);
    if Live(files, k).None? {
      assert LiveAmong(files, done + {k}) == LiveAmong(files, done);
      PlusLaws(AccountsTally(LiveAmong(files, done), digest), Zero(), Zero());
    } else {
      assert LiveAmong(files, done + {k}) == LiveAmong(files, done)[k := Live(files, k).value];
      AccountsTallyAdds(LiveAmong(files, done), digest, k, Live(files, k).value);
    }
  }

  /** The newest versions of the keys weigh what the accounts that a restart reads back weigh. */
  lemma {:induction false} NewestIsLive(files: Files, digest: Digest, keys: set<Pubkey>)
    ensures Sum(files, digest, Newest(files, keys)) == AccountsTally(LiveAmong(files, keys), digest)
    decreases keys
  {
    if keys == {} {
      assert Newest(files, keys) == {};
    } else {
      var k :| k in keys;
      var rest := keys - {k};
      NewestIsLive(files, digest, rest);
      assert keys == rest + {k};
      if Holders(files, k) == {} {
        assert Newest(files, keys) == Newest(files, rest);
        assert LiveAmong(files, keys) == LiveAmong(files, rest);
      } else {
        NewestAdds(files, digest, rest, k);
        LiveAdds(files, digest, rest, k);
      }
    }
  }

  // ----- Totals over threads -----

  function Total(accums: seq<Tally>): Tally {
    if accums == [] then Zero() else Plus(Total(accums[..|accums| - 1]), accums[|accums| - 1])
  }

  lemma {:induction false} TotalAdds(accums: seq<Tally>, t: nat, x: Tally)
    requires t < |accums|
    ensures Total(accums[t := Plus(accums[t], x)]) == Plus(Total(accums), x)
  {
    var n := |accums| - 1;
    var updated := accums[t := Plus(accums[t], x)];
    if t == n {
      assert updated[..n] == accums[..n];
      PlusLaws(Total(accums[..n]), accums[n], x);
    } else {
      assert updated[..n] == accums[..n][t := Plus(accums[..n][t], x)];
      TotalAdds(accums[..n], t, x);
      PlusLaws(Total(accums[..n]), x, accums[n]);
      PlusLaws(Total(accums[..n]), accums[n], x);
      PlusLaws(x, accums[n], x);
    }
  }

  lemma {:induction false} TotalOfZeros(accums: seq<Tally>)
    requires forall i | 0 <= i < |accums| :: accums[i] == Zero()
    ensures Total(accums) == Zero()
  {
    if accums != [] {
      TotalOfZeros(accums[..|accums| - 1]);
      PlusLaws(Zero(), Zero(), Zero());
    }
  }

  // ----- Building the index -----

  /** The index has exactly the accounts of the storages in `slots`. */
  ghost predicate Indexes(index: Index, files: Files, slots: set<Slot>) {
    && (forall k, s :: HasEntry(index, k, s) <==> s in slots && s in files && k in files[s])
    && (forall k | k in index :: index[k] != {})
  }

  lemma IndexedSlots(index: Index, files: Files, k: Pubkey)
    requires Indexes(index, files, files.Keys)
    ensures k in index <==> Holders(files, k) != {}
    ensures k in index ==> index[k] == Holders(files, k)
  {
    assert forall s :: HasEntry(index, k, s) <==> s in Holders(files, k);
    if k in index {
      forall s ensures s in index[k] <==> s in Holders(files, k) {
        assert HasEntry(index, k, s) <==> s in index[k];
      }
    } else {
      assert forall s :: !HasEntry(index, k, s);
    }
  }

  lemma IndexedKeys(index: Index, files: Files)
    requires Indexes(index, files, files.Keys)
    ensures index.Keys == KeysOf(files)
  {
    forall k ensures k in index <==> k in KeysOf(files) {
      IndexedSlots(index, files, k);
      assert forall s | s in files && k in files[s] :: s in Holders(files, k);
    }
  }

  // ----- What is recorded about each storage -----

  datatype SizeAndCount = SizeAndCount(storedSize: int, count: nat)

  function InfoAt(info: map<Slot, SizeAndCount>, slot: Slot): SizeAndCount {
    if slot in info then info[slot] else SizeAndCount(0, 0)
  }

  function StoredLen(account: Account): int { StorageReader.StoredSize(|account.data|) }

  /** An account takes the least multiple of eight bytes that holds its data and metadata. */
  lemma StoredLenRounds(account: Account)
    ensures StoredLen(account) % 8 == 0
    ensures 136 + |account.data| <= StoredLen(account) < 136 + |account.data| + 8
  {
  }

  function ZeroKeys(accounts: map<Pubkey, Account>): set<Pubkey> {
    set k | k in accounts && accounts[k].IsZeroLamport()
  }

  predicate AllZero(accounts: map<Pubkey, Account>) {
    accounts != map[] && forall k | k in accounts :: accounts[k].IsZeroLamport()
  }

  /** `info` has the bytes and the number of accounts of each storage in `slots` that is not empty. */
  ghost predicate InfoExact(info: map<Slot, SizeAndCount>, files: Files, slots: set<Slot>) {
    && (forall s :: s in info <==> s in slots && s in files && files[s] != map[])
    && (forall s | s in info :: info[s] == SizeAndCount(SumOver(files[s], StoredLen), |files[s]|))
  }

  /** `uncleaned` has the zero-lamport keys of each storage in `slots` that has any. */
  ghost predicate ZeroKeysNoted(uncleaned: map<Slot, set<Pubkey>>, files: Files, slots: set<Slot>) {
    && (forall s :: s in uncleaned <==> s in slots && s in files && ZeroKeys(files[s]) != {})
    && (forall s | s in uncleaned :: uncleaned[s] == ZeroKeys(files[s]))
  }

  predicate Uncleaned(uncleaned: map<Slot, set<Pubkey>>, s: Slot, k: Pubkey) {
    s in uncleaned && k in uncleaned[s]
  }

  function Noted(uncleaned: map<Slot, set<Pubkey>>, s: Slot, k: Pubkey): (r: map<Slot, set<Pubkey>>)
    ensures forall t, x :: Uncleaned(r, t, x) <==> Uncleaned(uncleaned, t, x) || (t == s && x == k)
    ensures (forall t | t in uncleaned :: uncleaned[t] != {}) ==> forall t | t in r :: r[t] != {}
  {
    uncleaned[s := (if s in uncleaned then uncleaned[s] else {}) + {k}]
  }

  /** What clean has to look at after startup: in every slot the zero-lamport keys and the keys that are
      also in other slots. */
  ghost predicate UncleanedExact(uncleaned: map<Slot, set<Pubkey>>, files: Files) {
    && (forall s, k :: Uncleaned(uncleaned, s, k) <==>
          s in files && k in files[s] && (files[s][k].IsZeroLamport() || |Holders(files, k)| > 1))
    && (forall s | s in uncleaned :: uncleaned[s] != {})
  }

  /** `duplicates` has every place of the keys that the index has at several slots. */
  ghost predicate DuplicatesExact(duplicates: set<Place>, index: Index) {
    forall s: Slot, k: Pubkey :: (s, k) in duplicates <==> HasEntry(index, k, s) && |index[k]| > 1
  }

  function SlotsAt(index: Index, k: Pubkey): set<Slot> { if k in index then index[k] else {} }

  /** The second entry of a key makes both places duplicates, a later one only its own. */
  function NewDuplicates(index: Index, k: Pubkey, slot: Slot): set<Place> {
    if k !in index then {}
    else (if |index[k]| == 1 then At(index[k], k) else {}) + {(slot, k)}
  }

  lemma DuplicatesAdd(duplicates: set<Place>, index: Index, k: Pubkey, slot: Slot)
    requires DuplicatesExact(duplicates, index) && !HasEntry(index, k, slot) && (k in index ==> index[k] != {})
    ensures DuplicatesExact(duplicates + NewDuplicates(index, k, slot), index[k := SlotsAt(index, k) + {slot}])
  {
    var index' := index[k := SlotsAt(index, k) + {slot}];
    assert |index'[k]| == |SlotsAt(index, k)| + 1;
    forall s: Slot, x: Pubkey
      ensures (s, x) in duplicates + NewDuplicates(index, k, slot) <==> HasEntry(index', x, s) && |index'[x]| > 1
    {
      assert (s, x) in duplicates <==> HasEntry(index, x, s) && |index[x]| > 1;
      assert k in index ==> ((s, x) in At(index[k], k) <==> x == k && s in index[k]);
    }
  }

  ghost function AllZeroIn(files: Files, slots: set<Slot>): set<Slot> {
    set s | s in slots && s in files && AllZero(files[s])
  }

  /** Index, duplicates, sizes, counts and zero-lamport keys are those of the storages in `slots`. */
  ghost predicate Scanned(index: Index, duplicates: set<Place>, storageInfo: map<Slot, SizeAndCount>,
                          uncleaned: map<Slot, set<Pubkey>>, files: Files, slots: set<Slot>)
  {
    && Indexes(index, files, slots) && DuplicatesExact(duplicates, index)
    && InfoExact(storageInfo, files, slots)
    && ZeroKeysNoted(uncleaned, files, slots)
  }

  lemma InfoAdds(info: map<Slot, SizeAndCount>, files: Files, done: set<Slot>, slot: Slot)
    requires InfoExact(info, files, done) && slot in files && slot !in done && files[slot] != map[]
    ensures InfoAt(info, slot) == SizeAndCount(0, 0)
    ensures InfoExact(info[slot := SizeAndCount(SumOver(files[slot], StoredLen), |files[slot]|)], files, done + {slot})
  {
  }

  lemma ZeroKeysAdd(uncleaned: map<Slot, set<Pubkey>>, files: Files, done: set<Slot>, slot: Slot)
    requires ZeroKeysNoted(uncleaned, files, done) && slot in files && slot !in done
    ensures ZeroKeys(files[slot]) == {} ==> ZeroKeysNoted(uncleaned, files, done + {slot})
    ensures ZeroKeys(files[slot]) != {} ==>
      ZeroKeysNoted(uncleaned[slot := ZeroKeys(files[slot])], files, done + {slot})
  {
  }

  lemma AllZeroInAdds(files: Files, done: set<Slot>, slot: Slot)
    requires slot in files
    ensures AllZeroIn(files, done + {slot}) == AllZeroIn(files, done) + if AllZero(files[slot]) then {slot} else {}
  {
  }

  lemma IndexesAdds(before: Index, index: Index, files: Files, done: set<Slot>, slot: Slot)
    requires slot in files && Indexes(before, files, done)
    requires forall k, s :: HasEntry(index, k, s) <==> HasEntry(before, k, s) || (s == slot && k in files[slot])
    requires forall k | k in index :: index[k] != {}
    ensures Indexes(index, files, done + {slot})
  {
    forall k, s ensures HasEntry(index, k, s) <==> s in done + {slot} && s in files && k in files[s] {
      assert HasEntry(before, k, s) <==> s in done && s in files && k in files[s];
    }
  }

  lemma AllZeroIff(accounts: map<Pubkey, Account>)
    requires accounts != map[]
    ensures AllZero(accounts) <==> accounts.Keys == ZeroKeys(accounts)
  {
    assert accounts.Keys == ZeroKeys(accounts) ==> forall k | k in accounts :: k in ZeroKeys(accounts);
  }

  class Generator {
    const files: Files
    const digest: Digest
    var index: Index
    var storageInfo: map<Slot, SizeAndCount>
    var uncleanedPubkeys: map<Slot, set<Pubkey>>
    /** The places of the keys that have been found in several slots. */
    var duplicates: set<Place>

    constructor (storages: Files, hasher: Digest)
      ensures files == storages && digest == hasher && Fresh()
    {
      files, digest := storages, hasher;
      index, storageInfo, uncleanedPubkeys, duplicates := map[], map[], map[], {};
    }

    ghost predicate Fresh()
      reads this
    {
      index == map[] && storageInfo == map[] && uncleanedPubkeys == map[] && duplicates == {}
    }

    ghost predicate HasScanned(slots: set<Slot>)
      reads this
    {
      Scanned(index, duplicates, storageInfo, uncleanedPubkeys, files, slots)
    }

    /** Index, sizes, counts and the keys for clean to look at are those of all storages. */
    ghost predicate Generated()
      reads this
    {
      && Indexes(index, files, files.Keys) && InfoExact(storageInfo, files, files.Keys)
      && UncleanedExact(uncleanedPubkeys, files)
    }

    /** Add one entry to the index, and note the duplicates that this makes. */
    method InsertOne(slot: Slot, key: Pubkey)
      requires DuplicatesExact(duplicates, index) && !HasEntry(index, key, slot)
      requires forall k | k in index :: index[k] != {}
      modifies this`index, this`duplicates
      ensures DuplicatesExact(duplicates, index) && forall k | k in index :: index[k] != {}
      ensures forall k, s :: HasEntry(index, k, s) <==> old(HasEntry(index, k, s)) || (s == slot && k == key)
    {
      DuplicatesAdd(duplicates, index, key, slot);
      duplicates := duplicates + NewDuplicates(index, key, slot);
      index := index[key := SlotsAt(index, key) + {slot}];
    }

    /** Add one storage's accounts to the index. */
    method InsertNew(slot: Slot, keys: set<Pubkey>) returns (count: nat)
      requires DuplicatesExact(duplicates, index) && forall k | k in index :: index[k] != {}
      requires forall k :: !HasEntry(index, k, slot)
      modifies this`index, this`duplicates
      ensures count == |keys| && DuplicatesExact(duplicates, index) && forall k | k in index :: index[k] != {}
      ensures forall k, s :: HasEntry(index, k, s) <==> old(HasEntry(index, k, s)) || (s == slot && k in keys)
    {
      var rest := keys;
      count := 0;
      while rest != {}
        invariant rest <= keys && count + |rest| == |keys|
        invariant DuplicatesExact(duplicates, index) && forall k | k in index :: index[k] != {}
        invariant forall k, s ::
          HasEntry(index, k, s) <==> old(HasEntry(index, k, s)) || (s == slot && k in keys - rest)
      {
        var key :| key in rest;
        InsertOne(slot, key);
        rest := rest - {key};
        count := count + 1;
      }
    }

    /** Read one storage: tally its accounts, add up their stored sizes and collect their keys. */
    method ScanAccounts(slot: Slot)
      returns (info: Tally, storedSize: int, keyed: set<Pubkey>, zeroLamportKeys: set<Pubkey>)
      requires slot in files
      ensures info == Sum(files, digest, PlacesIn(files, {slot}))
      ensures storedSize == SumOver(files[slot], StoredLen)
      ensures keyed == files[slot].Keys
      ensures zeroLamportKeys == ZeroKeys(files[slot])
    {
      info, storedSize, keyed, zeroLamportKeys := Zero(), 0, {}, {};
      var rest := files[slot].Keys;
      ghost var seen: set<Place> := {};
      ghost var read: map<Pubkey, Account> := map[];
      while rest != {}
        invariant rest <= files[slot].Keys && keyed == files[slot].Keys - rest
        invariant forall s: Slot, k: Pubkey :: (s, k) in seen <==> s == slot && k in keyed
        invariant info == Sum(files, digest, seen)
        invariant read.Keys == keyed && forall k | k in read :: read[k] == files[slot][k]
        invariant storedSize == SumOver(read, StoredLen)
        invariant forall k :: k in zeroLamportKeys <==> k in keyed && files[slot][k].IsZeroLamport()
      {
        var key :| key in rest;
        var account := files[slot][key];
        rest, keyed := rest - {key}, keyed + {key};
        SumUpdates(read, StoredLen, key, account);
        storedSize, read := storedSize + StoredLen(account), read[key := account];
        if account.IsZeroLamport() {
          zeroLamportKeys := zeroLamportKeys + {key};
        }
        SumAdds(files, digest, seen, (slot, key));
        info := Accumulate(info, Contribution(digest, key, account));
        seen := seen + {(slot, key)};
      }
      assert read == files[slot];
      assert seen == PlacesIn(files, {slot}) by {
        forall p ensures p in seen <==> p in PlacesIn(files, {slot}) {
          assert p == (p.0, p.1);
        }
      }
    }

    method InsertStorage(slot: Slot, keyed: set<Pubkey>, ghost done: set<Slot>) returns (count: nat)
      requires slot in files && slot !in done && keyed == files[slot].Keys
      requires Indexes(index, files, done) && DuplicatesExact(duplicates, index)
      modifies this`index, this`duplicates
      ensures Indexes(index, files, done + {slot}) && DuplicatesExact(duplicates, index) && count == |files[slot]|
    {
      ghost var before := index;
      count := InsertNew(slot, keyed);
      IndexesAdds(before, index, files, done, slot);
    }

    /** Put a storage's accounts into the index and record what the scan found. */
    method RecordStorage(slot: Slot, storedSize: int, keyed: set<Pubkey>, zeroLamportKeys: set<Pubkey>,
                         ghost done: set<Slot>)
      requires slot in files && slot !in done && HasScanned(done) && files[slot] != map[]
      requires storedSize == SumOver(files[slot], StoredLen)
      requires keyed == files[slot].Keys && zeroLamportKeys == ZeroKeys(files[slot])
      modifies this`index, this`duplicates, this`storageInfo, this`uncleanedPubkeys
      ensures HasScanned(done + {slot})
    {
      InfoAdds(storageInfo, files, done, slot);
      ZeroKeysAdd(uncleanedPubkeys, files, done, slot);
      var count := InsertStorage(slot, keyed, done);
      var recorded := InfoAt(storageInfo, slot);
      storageInfo := storageInfo[slot := SizeAndCount(recorded.storedSize + storedSize, recorded.count + count)];
      if zeroLamportKeys != {} {
        uncleanedPubkeys := uncleanedPubkeys[slot := zeroLamportKeys];
      }
    }

    lemma EmptyRecordsNothing(slot: Slot, done: set<Slot>)
      requires slot in files && files[slot] == map[] && HasScanned(done)
      ensures HasScanned(done + {slot}) && PlacesIn(files, {slot}) == {}
    {
    }

    /** Scan one storage, unless it is empty, put its accounts into the index and record its size, its
        number of accounts and its zero-lamport keys. */
    method GenerateIndexForSlot(slot: Slot, ghost done: set<Slot>) returns (info: Tally, allZero: bool)
      requires slot in files && slot !in done && HasScanned(done)
      modifies this`index, this`duplicates, this`storageInfo, this`uncleanedPubkeys
      ensures info == Sum(files, digest, PlacesIn(files, {slot}))
      ensures allZero <==> AllZero(files[slot])
      ensures HasScanned(done + {slot})
    {
      if files[slot] == map[] {
        EmptyRecordsNothing(slot, done);
        return Zero(), false;
      }
      var storedSize, keyed, zeroLamportKeys;
      info, storedSize, keyed, zeroLamportKeys := ScanAccounts(slot);
      AllZeroIff(files[slot]);
      allZero := keyed == zeroLamportKeys;
      RecordStorage(slot, storedSize, keyed, zeroLamportKeys, done);
    }

    lemma ScannedAdds(accums: seq<Tally>, thread: nat, slot: Slot, done: set<Slot>, info: Tally)
      requires thread < |accums| && slot !in done && Total(accums) == Sum(files, digest, PlacesIn(files, done))
      requires info == Sum(files, digest, PlacesIn(files, {slot}))
      ensures Total(accums[thread := Plus(accums[thread], info)]) == Sum(files, digest, PlacesIn(files, done + {slot}))
    {
      TotalAdds(accums, thread, info);
      SumUnion(files, digest, PlacesIn(files, done), PlacesIn(files, {slot}));
      assert PlacesIn(files, done) + PlacesIn(files, {slot}) == PlacesIn(files, done + {slot});
    }

    /** One thread scans one storage and adds what it found to its own total. */
    method ScanNext(slot: Slot, thread: nat, accums: seq<Tally>, ghost done: set<Slot>)
      returns (accums': seq<Tally>, allZero: bool)
      requires slot in files && slot !in done && HasScanned(done) && thread < |accums|
      requires Total(accums) == Sum(files, digest, PlacesIn(files, done))
      modifies this`index, this`duplicates, this`storageInfo, this`uncleanedPubkeys
      ensures |accums'| == |accums| && Total(accums') == Sum(files, digest, PlacesIn(files, done + {slot}))
      ensures allZero <==> AllZero(files[slot])
      ensures HasScanned(done + {slot})
    {
      var info;
      info, allZero := GenerateIndexForSlot(slot, done);
      var mine := Accumulate(accums[thread], info);
      accums' := accums[thread := mine];
      ScannedAdds(accums, thread, slot, done, info);
    }

    /** All storages, handed out to the threads in any order; the threads' totals are joined at the end. */
    method ScanStorages(threads: nat) returns (total: Tally, allZeroSlots: set<Slot>)
      requires threads > 0 && Fresh()
      modifies this`index, this`duplicates, this`storageInfo, this`uncleanedPubkeys
      ensures total == Sum(files, digest, PlacesIn(files, files.Keys))
      ensures allZeroSlots == AllZeroIn(files, files.Keys)
      ensures HasScanned(files.Keys)
    {
      var accums := seq(threads, _ => Zero());
      TotalOfZeros(accums);
      ghost var done: set<Slot> := {};
      assert PlacesIn(files, done) == {};
      var todo := files.Keys;
      allZeroSlots := {};
      while todo != {}
        invariant |accums| == threads
        invariant forall s :: s in files.Keys <==> s in done || s in todo
        invariant done !! todo
        invariant Total(accums) == Sum(files, digest, PlacesIn(files, done))
        invariant allZeroSlots == AllZeroIn(files, done)
        invariant HasScanned(done)
      {
        var slot :| slot in todo;
        var thread: nat :| thread < threads;
        var allZero;
        accums, allZero := ScanNext(slot, thread, accums, done);
        AllZeroInAdds(files, done, slot);
        if allZero { allZeroSlots := allZeroSlots + {slot}; }
        todo, done := todo - {slot}, done + {slot};
      }
      assert done == files.Keys;
      total := Join(accums);
    }

    /** Accumulate the threads' totals. */
    static method Join(accums: seq<Tally>) returns (total: Tally)
      ensures total == Total(accums)
    {
      total := Zero();
      for i := 0 to |accums|
        invariant total == Total(accums[..i])
      {
        assert accums[..i + 1][..i] == accums[..i];
        total := Accumulate(total, accums[i]);
      }
      assert accums[..|accums|] == accums;
    }

    /** Tally the older versions of one key. */
    method VisitKey(k: Pubkey) returns (tally: Tally, count: nat)
      requires Indexes(index, files, files.Keys)
      ensures tally == Sum(files, digest, OlderOf(files, k)) && count == |OlderOf(files, k)|
    {
      tally, count := Zero(), 0;
      IndexedSlots(index, files, k);
      if k in index && |index[k]| > 1 {
        var slotList := index[k];
        var newest := MaxOf(slotList);
        var rest := slotList - {newest};
        ghost var seen: set<Place> := {};
        while rest != {}
          invariant rest <= slotList - {newest}
          invariant seen == At(slotList - {newest} - rest, k)
          invariant tally == Sum(files, digest, seen) && count == |seen|
        {
          var slot :| slot in rest;
          rest := rest - {slot};
          SumAdds(files, digest, seen, (slot, k));
          assert slot in Holders(files, k);
          tally := Accumulate(tally, Contribution(digest, k, files[slot][k]));
          count := count + 1;
          seen := seen + {(slot, k)};
        }
        assert slotList - {newest} - rest == slotList - {newest};
      } else {
        assert OlderOf(files, k) == {} by {
          if p :| p in OlderOf(files, k) {
            TwoAreMoreThanOne(Holders(files, k), p.0, MaxOf(Holders(files, k)));
          }
        }
      }
    }

    /** Tally the older versions of a chunk of keys. */
    method VisitDuplicatePubkeys(keys: set<Pubkey>) returns (tally: Tally, count: nat)
      requires Indexes(index, files, files.Keys)
      ensures tally == Sum(files, digest, Older(files, keys)) && count == |Older(files, keys)|
    {
      tally, count := Zero(), 0;
      ghost var done: set<Pubkey> := {};
      assert Older(files, done) == {};
      var rest := keys;
      while rest != {}
        invariant forall k :: k in keys <==> k in done || k in rest
        invariant done !! rest
        invariant tally == Sum(files, digest, Older(files, done)) && count == |Older(files, done)|
      {
        var k :| k in rest;
        var one, n := VisitKey(k);
        tally := Accumulate(tally, one);
        OlderAddsOne(files, digest, done, k);
        count := count + n;
        rest, done := rest - {k}, done + {k};
      }
      assert done == keys;
    }

    /** The duplicate keys, split into any chunks and taken in any order. */
    method VisitChunks(duplicates: set<Pubkey>) returns (tally: Tally, count: nat)
      requires Indexes(index, files, files.Keys)
      ensures tally == Sum(files, digest, Older(files, duplicates)) && count == |Older(files, duplicates)|
    {
      tally, count := Zero(), 0;
      ghost var done: set<Pubkey> := {};
      assert Older(files, done) == {};
      var rest := duplicates;
      while rest != {}
        invariant forall k :: k in duplicates <==> k in done || k in rest
        invariant done !! rest
        invariant tally == Sum(files, digest, Older(files, done)) && count == |Older(files, done)|
        decreases |rest|
      {
        var chunk :| chunk <= rest && chunk != {};
        var part, n := VisitDuplicatePubkeys(chunk);
        tally := Accumulate(tally, part);
        OlderAdds(files, digest, done, chunk);
        count := count + n;
        SubtractShrinks(rest, chunk);
        rest, done := rest - chunk, done + chunk;
      }
      assert done == duplicates;
    }

    /** Hand the places of the duplicate keys to clean, and collect the keys. */
    method NoteDuplicates() returns (keys: set<Pubkey>)
      requires HasScanned(files.Keys)
      modifies this`uncleanedPubkeys
      ensures Generated()
      ensures forall k :: k in keys <==> |Holders(files, k)| > 1
    {
      ghost var before := uncleanedPubkeys;
      var rest := duplicates;
      while rest != {}
        invariant rest <= duplicates
        invariant forall s: Slot, k: Pubkey :: Uncleaned(uncleanedPubkeys, s, k) <==>
          Uncleaned(before, s, k) || ((s, k) in duplicates && (s, k) !in rest)
        invariant forall s | s in uncleanedPubkeys :: uncleanedPubkeys[s] != {}
      {
        var place :| place in rest;
        rest := rest - {place};
        uncleanedPubkeys := Noted(uncleanedPubkeys, place.0, place.1);
      }
      NotedIsExact(before, uncleanedPubkeys);
      keys := set p | p in duplicates :: p.1;
      DuplicateKeys(keys);
    }

    lemma NotedIsExact(before: map<Slot, set<Pubkey>>, uncleaned: map<Slot, set<Pubkey>>)
      requires Indexes(index, files, files.Keys) && DuplicatesExact(duplicates, index)
      requires ZeroKeysNoted(before, files, files.Keys)
      requires forall s: Slot, k: Pubkey ::
        Uncleaned(uncleaned, s, k) <==> Uncleaned(before, s, k) || (s, k) in duplicates
      requires forall s | s in uncleaned :: uncleaned[s] != {}
      ensures UncleanedExact(uncleaned, files)
    {
      forall s: Slot, k: Pubkey
        ensures Uncleaned(uncleaned, s, k) <==>
          s in files && k in files[s] && (files[s][k].IsZeroLamport() || |Holders(files, k)| > 1)
      {
        IndexedSlots(index, files, k);
        assert HasEntry(index, k, s) <==> s in files && k in files[s];
        assert s in files && ZeroKeys(files[s]) == {} ==> k !in ZeroKeys(files[s]);
      }
    }

    lemma DuplicateKeys(keys: set<Pubkey>)
      requires Indexes(index, files, files.Keys) && DuplicatesExact(duplicates, index)
      requires keys == set p | p in duplicates :: p.1
      ensures forall k :: k in keys <==> |Holders(files, k)| > 1
    {
      forall k ensures k in keys <==> |Holders(files, k)| > 1 {
        IndexedSlots(index, files, k);
        if k in keys {
          var p :| p in duplicates && p.1 == k;
          assert (p.0, k) in duplicates;
        }
        if |Holders(files, k)| > 1 {
          var s :| s in Holders(files, k);
          assert (s, k) in duplicates && (s, k).1 == k;
        }
      }
    }

    /** Tally the older versions of all keys, by visiting the keys that are in several slots. */
    method VisitDuplicates() returns (tally: Tally, count: nat)
      requires HasScanned(files.Keys)
      modifies this`uncleanedPubkeys
      ensures Generated()
      ensures tally == Sum(files, digest, Older(files, KeysOf(files))) && count == |Older(files, KeysOf(files))|
    {
      var keys := NoteDuplicates();
      tally, count := VisitChunks(keys);
      OnlyDuplicatesAreOlder(files, keys);
    }

    /** All accounts without the older versions are the accounts that are restored. */
    lemma WithoutOlder(total: Tally, older: Tally)
      requires total == Sum(files, digest, PlacesIn(files, files.Keys))
      requires older == Sum(files, digest, Older(files, KeysOf(files)))
      ensures older.dataLen <= total.dataLen
      ensures Tally(LtHash.MixedOut(total.hash, older.hash), total.dataLen - older.dataLen)
           == AccountsTally(Restored(files), digest)
    {
      AllIsNewestAndOlder(files);
      SumUnion(files, digest, Newest(files, KeysOf(files)), Older(files, KeysOf(files)));
      LtHash.MixOutUndoes(Sum(files, digest, Newest(files, KeysOf(files))).hash, older.hash);
      NewestIsLive(files, digest, KeysOf(files));
    }

    /** Generate the index.  What is left after subtracting the duplicates is the hash and the data
        length of the accounts that the storages restore; the subtraction of the length never underflows.
        The storages that are all zero are the ones clean has to look at. */
    method GenerateIndex(threads: nat) returns (result: Tally, duplicateCount: nat, dirtyStores: set<Slot>)
      requires threads > 0 && Fresh()
      modifies this
      ensures Generated()
      ensures result == AccountsTally(Restored(files), digest)
      ensures duplicateCount == |Older(files, KeysOf(files))|
      ensures dirtyStores == AllZeroIn(files, files.Keys)
    {
      var total, older;
      total, dirtyStores := ScanStorages(threads);
      older, duplicateCount := VisitDuplicates();
      WithoutOlder(total, older);
      var hash := LtHash.Unmix(total.hash, older.hash);
      result := Tally(hash, total.dataLen - older.dataLen);
    }

    /** The hash of the newest version of a key up to the startup slot. */
    method NewestHash(k: Pubkey, startupSlot: Slot) returns (hash: LtHash.Hash)
      requires Indexes(index, files, files.Keys) && k in index && forall s | s in files :: s <= startupSlot
      ensures Holders(files, k) != {} && hash == Weight(files, digest, (MaxOf(Holders(files, k)), k)).hash
    {
      IndexedSlots(index, files, k);
      var visible := set s | s in index[k] && s <= startupSlot;
      assert visible == Holders(files, k);
      var account := files[MaxOf(visible)][k];
      hash := if account.IsZeroLamport() then LtHash.Identity() else digest(k, account);
    }

    /** The slow computation from the index: for each key, in any order, the hash of its newest
        version. */
    method CalculateFromIndex(startupSlot: Slot) returns (hash: LtHash.Hash)
      requires Indexes(index, files, files.Keys) && forall s | s in files :: s <= startupSlot
      ensures hash == AccountsTally(Restored(files), digest).hash
    {
      hash := LtHash.Identity();
      ghost var done: set<Pubkey> := {};
      var rest := index.Keys;
      while rest != {}
        invariant forall k :: k in index.Keys <==> k in done || k in rest
        invariant done !! rest
        invariant hash == AccountsTally(LiveAmong(files, done), digest).hash
      {
        var k :| k in rest;
        var one := NewestHash(k, startupSlot);
        LiveAdds(files, digest, done, k);
        hash := LtHash.Mix(hash, one);
        rest, done := rest - {k}, done + {k};
      }
      assert done == index.Keys;
      IndexedKeys(index, files);
    }
  }

  lemma SubtractShrinks(rest: set<Pubkey>, chunk: set<Pubkey>)
    requires chunk <= rest && chunk != {}
    ensures |rest - chunk| < |rest|
  {
    assert rest == (rest - chunk) + chunk;
  }

  /** The fast computation agrees with the slow one. */
  method GenerateAndVerify(files: Files, digest: Digest, threads: nat, startupSlot: Slot)
    returns (fast: LtHash.Hash, slow: LtHash.Hash)
    requires threads > 0 && forall s | s in files :: s <= startupSlot
    ensures fast == slow
  {
    var generator := new Generator(files, digest);
    var result, _, _ := generator.GenerateIndex(threads);
    fast := result.hash;
    slow := generator.CalculateFromIndex(startupSlot);
  }
}
