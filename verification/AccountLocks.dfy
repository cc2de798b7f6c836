/** The reader/writer lock table over account keys, for single transactions and for whole batches. */
module AccountLocks {
  import opened Types

  datatype Lock = Lock(key: Pubkey, writable: bool)

  /** The accounts of a transaction, in the order of its account keys. */
  type Tx = seq<Lock>

  datatype TransactionError = TooManyAccountLocks | AccountLoadedTwice | AccountInUse | OtherError(code: int)

  datatype Result = Ok | Err(error: TransactionError)

  /** A transaction of a batch whose keys have been validated, or why it is out. */
  datatype Validated = Keys(tx: Tx) | Rejected(error: TransactionError)

  type Counts = map<Pubkey, nat>

  datatype Table = Table(writeLocks: Counts, readonlyLocks: Counts)

  function CountOf(counts: Counts, k: Pubkey): nat { if k in counts then counts[k] else 0 }

  function Count(table: Table, lock: Lock): nat {
    CountOf(if lock.writable then table.writeLocks else table.readonlyLocks, lock.key)
  }

  /** Entries are removed when their count drops to zero. */
  ghost predicate NoZeros(table: Table) {
    && (forall k | k in table.writeLocks :: table.writeLocks[k] > 0)
    && (forall k | k in table.readonlyLocks :: table.readonlyLocks[k] > 0)
  }

  // ----- Validation -----

  function KeysOf(tx: Tx): seq<Pubkey> { seq(|tx|, i requires 0 <= i < |tx| => tx[i].key) }

  const USE_ACCOUNT_LOCK_SET_SIZE: nat := 32

  /** Both ways of looking for duplicates give the same answer. */
  method HasDuplicates(keys: seq<Pubkey>) returns (r: bool)
    ensures r <==> !Distinct(keys)
  {
    if |keys| >= USE_ACCOUNT_LOCK_SET_SIZE {
      var seen: set<Pubkey> := {};
      for i := 0 to |keys|
        invariant Distinct(keys[..i])
        invariant forall k :: k in seen <==> k in keys[..i]
      {
        if keys[i] in seen {
          return true;
        }
        assert keys[..i + 1] == keys[..i] + [keys[i]];
        seen := seen + {keys[i]};
      }
      assert keys[..|keys|] == keys;
      return false;
    }
    for i := 0 to |keys|
      invariant forall a, b | 0 <= a < i && a < b < |keys| :: keys[a] != keys[b]
    {
      for j := i + 1 to |keys|
        invariant forall b | i < b < j :: keys[i] != keys[b]
      {
        if keys[i] == keys[j] {
          return true;
        }
      }
    }
    return false;
  }

  function Validation(tx: Tx, limit: nat): Result {
    if |tx| > limit then Err(TooManyAccountLocks)
    else if !Distinct(KeysOf(tx)) then Err(AccountLoadedTwice)
    else Ok
  }

  method ValidateAccountLocks(tx: Tx, limit: nat) returns (r: Result)
    ensures r == Validation(tx, limit)
    ensures r.Ok? <==> |tx| <= limit && Distinct(KeysOf(tx))
    ensures r == Err(AccountLoadedTwice) <==> |tx| <= limit && !Distinct(KeysOf(tx))
  {
    if |tx| > limit {
      return Err(TooManyAccountLocks);
    }
    var duplicates := HasDuplicates(KeysOf(tx));
    return if duplicates then Err(AccountLoadedTwice) else Ok;
  }

  // ----- Who holds what -----

  /** The `index`-th transaction of a call. */
  datatype TxId = TxId(call: nat, index: nat)

  datatype Holder = Holder(tx: Tx, relaxed: bool)

  type Held = map<TxId, Holder>

  predicate Conflict(a: Tx, b: Tx) {
    exists x, y | x in a && y in b :: x.key == y.key && (x.writable || y.writable)
  }

  function HoldersOf(held: Held, lock: Lock): set<TxId> {
    set id | id in held && lock in held[id].tx
  }

  /** Lock counts are the numbers of holders per key and mode, without zero entries. */
  ghost predicate Represents(table: Table, held: Held) {
    && NoZeros(table)
    && forall lock :: Count(table, lock) == |HoldersOf(held, lock)|
  }

  predicate CanLockOne(table: Table, lock: Lock) {
    if lock.writable then Count(table, Lock(lock.key, false)) == 0 && Count(table, lock) == 0
    else Count(table, Lock(lock.key, true)) == 0
  }

  predicate CanLock(table: Table, tx: Tx) { forall lock | lock in tx :: CanLockOne(table, lock) }

  lemma CountIsZeroIff(table: Table, held: Held, lock: Lock)
    requires Represents(table, held)
    ensures Count(table, lock) == 0 <==> forall id | id in held :: lock !in held[id].tx
  {
    var holders := HoldersOf(held, lock);
    assert Count(table, lock) == |holders|;
    if id :| id in held && lock in held[id].tx {
      assert id in holders;
    } else {
      assert holders == {};
    }
  }

  /** A transaction can be locked exactly when it conflicts with no holder. */
  lemma CanLockIffNoConflict(table: Table, held: Held, tx: Tx)
    requires Represents(table, held)
    ensures CanLock(table, tx) <==> forall id | id in held :: !Conflict(tx, held[id].tx)
  {
    forall lock | lock in tx
      ensures CanLockOne(table, lock) <==>
        forall id, y | id in held && y in held[id].tx :: !(lock.key == y.key && (lock.writable || y.writable))
    {
      CountIsZeroIff(table, held, Lock(lock.key, true));
      CountIsZeroIff(table, held, Lock(lock.key, false));
      assert forall y: Lock | y.key == lock.key :: y == Lock(lock.key, true) || y == Lock(lock.key, false);
    }
  }

  /** The tables are determined by who holds what. */
  lemma TableIsDetermined(a: Table, b: Table, held: Held)
    requires Represents(a, held) && Represents(b, held)
    ensures a == b
  {
    forall k ensures k in a.writeLocks <==> k in b.writeLocks {
      assert Count(a, Lock(k, true)) == Count(b, Lock(k, true));
    }
    forall k | k in a.writeLocks ensures a.writeLocks[k] == b.writeLocks[k] {
      assert Count(a, Lock(k, true)) == Count(b, Lock(k, true));
    }
    forall k ensures k in a.readonlyLocks <==> k in b.readonlyLocks {
      assert Count(a, Lock(k, false)) == Count(b, Lock(k, false));
    }
    forall k | k in a.readonlyLocks ensures a.readonlyLocks[k] == b.readonlyLocks[k] {
      assert Count(a, Lock(k, false)) == Count(b, Lock(k, false));
    }
    assert a.writeLocks == b.writeLocks && a.readonlyLocks == b.readonlyLocks;
  }

  // ----- Locking and unlocking a transaction -----

  /** The table after taking the locks of `tx`, one after the other. */
  ghost predicate LockedTo(table: Table, tx: Tx, after: Table) {
    && (NoZeros(table) ==> NoZeros(after))
    && forall lock :: Count(after, lock) == Count(table, lock) + multiset(tx)[lock]
  }

  /** The table after giving back the locks of `tx`; a lock that is not there stays absent. */
  ghost predicate UnlockedTo(table: Table, tx: Tx, after: Table) {
    && (NoZeros(table) ==> NoZeros(after))
    && forall lock :: Count(after, lock) ==
         if Count(table, lock) >= multiset(tx)[lock] then Count(table, lock) - multiset(tx)[lock] else 0
  }

  lemma {:induction false} CountInTx(tx: Tx, lock: Lock)
    requires Distinct(KeysOf(tx))
    ensures multiset(tx)[lock] == if lock in tx then 1 else 0
  {
    if tx != [] {
      var n := |tx| - 1;
      var front := tx[..n];
      assert tx == front + [tx[n]];
      assert forall i | 0 <= i < n :: KeysOf(front)[i] == KeysOf(tx)[i];
      CountInTx(front, lock);
      forall i | 0 <= i < n ensures front[i] != tx[n] {
        assert KeysOf(tx)[i] != KeysOf(tx)[n];
      }
    }
  }

  lemma HoldOne(table: Table, held: Held, id: TxId, holder: Holder, after: Table)
    requires Represents(table, held) && id !in held && Distinct(KeysOf(holder.tx)) && LockedTo(table, holder.tx, after)
    ensures Represents(after, held[id := holder])
  {
    forall lock ensures Count(after, lock) == |HoldersOf(held[id := holder], lock)| {
      CountInTx(holder.tx, lock);
      HoldersGrow(held, id, holder, lock);
      assert Count(table, lock) == |HoldersOf(held, lock)|;
    }
  }

  lemma HoldersGrow(held: Held, id: TxId, holder: Holder, lock: Lock)
    requires id !in held
    ensures |HoldersOf(held[id := holder], lock)| == |HoldersOf(held, lock)| + if lock in holder.tx then 1 else 0
  {
    assert HoldersOf(held[id := holder], lock) == HoldersOf(held, lock) + if lock in holder.tx then {id} else {};
  }

  lemma ReleaseOne(table: Table, held: Held, id: TxId, after: Table)
    requires Represents(table, held) && id in held && Distinct(KeysOf(held[id].tx))
    requires UnlockedTo(table, held[id].tx, after)
    ensures Represents(after, held - {id})
  {
    forall lock ensures Count(after, lock) == |HoldersOf(held - {id}, lock)| {
      CountInTx(held[id].tx, lock);
      assert Count(table, lock) == |HoldersOf(held, lock)|;
      assert HoldersOf(held - {id}, lock) == HoldersOf(held, lock) - {id};
    }
  }

  /** Held transactions conflict only inside one call that relaxed its locks. */
  ghost predicate Exclusive(held: Held) {
    forall a, b | a in held && b in held && a != b && Conflict(held[a].tx, held[b].tx) ::
      a.call == b.call && held[a].relaxed && held[b].relaxed
  }

  lemma ConflictIsSymmetric(a: Tx, b: Tx)
    ensures Conflict(a, b) ==> Conflict(b, a)
  {
    if Conflict(a, b) {
      var x, y :| x in a && y in b && x.key == y.key && (x.writable || y.writable);
      assert y in b && x in a && y.key == x.key && (y.writable || x.writable);
    }
  }

  /** Admitting a transaction keeps exclusion when it conflicts at most with relaxed ones of its call. */
  lemma AdmitOne(held: Held, id: TxId, holder: Holder)
    requires Exclusive(held) && id !in held
    requires forall a | a in held && Conflict(holder.tx, held[a].tx) ::
      a.call == id.call && held[a].relaxed && holder.relaxed
    ensures Exclusive(held[id := holder])
  {
    forall a | a in held {
      ConflictIsSymmetric(held[a].tx, holder.tx);
    }
  }

  // ----- Batches -----

  function Validate(tx: Tx, given: Result, limit: nat): Validated {
    if given.Err? then Rejected(given.error)
    else if Validation(tx, limit).Err? then Rejected(Validation(tx, limit).error)
    else Keys(tx)
  }

  /** The batch after validation; transactions without a result so far are left out. */
  function ValidatedBatch(txs: seq<Tx>, given: seq<Result>, limit: nat): seq<Validated> {
    var n := if |txs| <= |given| then |txs| else |given|;
    seq(n, i requires 0 <= i < n => Validate(txs[i], given[i], limit))
  }

  ghost predicate DistinctKeys(batch: seq<Validated>) {
    forall i | 0 <= i < |batch| && batch[i].Keys? :: Distinct(KeysOf(batch[i].tx))
  }

  /** The holders after a call has admitted the transactions of `batch` whose result is `Ok`. */
  ghost predicate AdmittedTo(
    before: Held, call: nat, batch: seq<Validated>, results: seq<Result>, relaxed: bool, after: Held)
    requires |results| <= |batch|
  {
    && (forall id :: id in after <==>
          id in before || (id.call == call && id.index < |results| && results[id.index].Ok?))
    && (forall id | id in before :: after[id] == before[id])
    && (forall i | 0 <= i < |results| && results[i].Ok? ::
          batch[i].Keys? && after[TxId(call, i)] == Holder(batch[i].tx, relaxed))
  }

  /** A transaction is refused when it conflicts with one held before the call or, without relaxed
      locks, with one admitted earlier in the call. */
  ghost predicate InUse(before: Held, batch: seq<Validated>, results: seq<Result>, relaxed: bool, i: nat)
    requires i <= |results| <= |batch| && i < |batch| && batch[i].Keys?
  {
    || (exists id | id in before :: Conflict(batch[i].tx, before[id].tx))
    || (!relaxed && exists j | 0 <= j < i :: results[j].Ok? && batch[j].Keys? && Conflict(batch[i].tx, batch[j].tx))
  }

  /** What the result of transaction `i` of a call must be. */
  ghost predicate ResultOk(before: Held, batch: seq<Validated>, relaxed: bool, results: seq<Result>, i: nat)
    requires i < |results| <= |batch|
  {
    match batch[i]
    case Rejected(error) => results[i] == Err(error)
    case Keys(tx) => results[i] == if InUse(before, batch, results, relaxed, i) then Err(AccountInUse) else Ok
  }

  /** Transaction `i` shares a key, which one of the two writes, with a transaction held before the call
      or, without relaxed locks, with one admitted earlier in the call. */
  ghost predicate Clashes(before: Held, txs: seq<Tx>, results: seq<Result>, relaxed: bool, i: nat)
    requires i < |results| <= |txs|
  {
    || (exists id, x, y | id in before && x in txs[i] && y in before[id].tx ::
          x.key == y.key && (x.writable || y.writable))
    || (!relaxed && exists j, x, y | 0 <= j < i && results[j] == Ok && x in txs[i] && y in txs[j] ::
          x.key == y.key && (x.writable || y.writable))
  }

  /** The result of transaction `i` of a call, in terms of the arguments of the call. */
  ghost predicate LockResult(before: Held, txs: seq<Tx>, given: seq<Result>, limit: nat, relaxed: bool,
                             results: seq<Result>, i: nat)
    requires i < |results| <= |txs| && |results| <= |given|
  {
    if given[i].Err? then results[i] == given[i]
    else if |txs[i]| > limit then results[i] == Err(TooManyAccountLocks)
    else if exists a, b :: 0 <= a < b < |txs[i]| && txs[i][a].key == txs[i][b].key
    then results[i] == Err(AccountLoadedTwice)
    else if Clashes(before, txs, results, relaxed, i) then results[i] == Err(AccountInUse)
    else results[i] == Ok
  }

  lemma ResultMeans(before: Held, txs: seq<Tx>, given: seq<Result>, limit: nat, relaxed: bool,
                    results: seq<Result>, i: nat)
    requires i < |results| && |results| == |ValidatedBatch(txs, given, limit)|
    requires forall j | 0 <= j < |results| :: ResultOk(before, ValidatedBatch(txs, given, limit), relaxed, results, j)
    ensures LockResult(before, txs, given, limit, relaxed, results, i)
  {
    var batch := ValidatedBatch(txs, given, limit);
    assert ResultOk(before, batch, relaxed, results, i) && batch[i] == Validate(txs[i], given[i], limit);
    DistinctMeans(txs[i]);
    if batch[i].Keys? {
      forall j | 0 <= j < i && results[j] == Ok ensures batch[j] == Keys(txs[j]) {
        assert ResultOk(before, batch, relaxed, results, j) && batch[j] == Validate(txs[j], given[j], limit);
      }
      InUseMeans(before, txs, batch, results, relaxed, i);
    }
  }

  lemma InUseMeans(before: Held, txs: seq<Tx>, batch: seq<Validated>, results: seq<Result>, relaxed: bool, i: nat)
    requires i < |results| == |batch| <= |txs| && batch[i] == Keys(txs[i])
    requires forall j | 0 <= j < i && results[j] == Ok :: batch[j] == Keys(txs[j])
    ensures InUse(before, batch, results, relaxed, i) <==> Clashes(before, txs, results, relaxed, i)
  {
    if Clashes(before, txs, results, relaxed, i) {
      if id, x, y :| id in before && x in txs[i] && y in before[id].tx && x.key == y.key && (x.writable || y.writable) {
        assert Conflict(txs[i], before[id].tx);
      } else {
        var j, x, y :| 0 <= j < i && results[j] == Ok && x in txs[i] && y in txs[j]
                       && x.key == y.key && (x.writable || y.writable);
        assert Conflict(txs[i], txs[j]) && batch[j].Keys?;
      }
    }
  }

  lemma DistinctMeans(tx: Tx)
    ensures Distinct(KeysOf(tx)) <==> !exists a, b :: 0 <= a < b < |tx| && tx[a].key == tx[b].key
  {
    if a, b :| 0 <= a < b < |tx| && tx[a].key == tx[b].key { assert KeysOf(tx)[a] == KeysOf(tx)[b]; }
  }

  lemma ResultStays(before: Held, batch: seq<Validated>, relaxed: bool, results: seq<Result>, r: Result, i: nat)
    requires i < |results| < |batch| && ResultOk(before, batch, relaxed, results, i)
    ensures ResultOk(before, batch, relaxed, results + [r], i)
  {
    assert forall j | 0 <= j <= i :: (results + [r])[j] == results[j];
  }

  /** Without relaxed locks, a transaction conflicts with a holder exactly when it is in use. */
  lemma StrictInUse(before: Held, call: nat, batch: seq<Validated>, results: seq<Result>, now: Held)
    requires |results| < |batch| && batch[|results|].Keys? && AdmittedTo(before, call, batch, results, false, now)
    ensures InUse(before, batch, results, false, |results|)
            <==> exists id | id in now :: Conflict(batch[|results|].tx, now[id].tx)
  {
    var tx := batch[|results|].tx;
    if id :| id in now && Conflict(tx, now[id].tx) {
      assert id in before || (batch[id.index].Keys? && results[id.index].Ok? && id == TxId(call, id.index));
    }
    if id :| id in before && Conflict(tx, before[id].tx) {
      assert id in now && Conflict(tx, now[id].tx);
    }
    if j :| 0 <= j < |results| && results[j].Ok? && batch[j].Keys? && Conflict(tx, batch[j].tx) {
      assert TxId(call, j) in now && Conflict(tx, now[TxId(call, j)].tx);
    }
  }

  /** Recording one more result, and the transaction as a holder when it is admitted. */
  ghost function Record(held: Held, id: TxId, batched: Validated, relaxed: bool, r: Result): Held {
    if r.Ok? && batched.Keys? then held[id := Holder(batched.tx, relaxed)] else held
  }

  lemma AdmittedOneMore(
    before: Held, call: nat, batch: seq<Validated>, results: seq<Result>, relaxed: bool, now: Held, r: Result)
    requires |results| < |batch| && AdmittedTo(before, call, batch, results, relaxed, now)
    requires forall id | id in before :: id.call != call
    requires r.Ok? ==> batch[|results|].Keys?
    ensures TxId(call, |results|) !in now
    ensures AdmittedTo(before, call, batch, results + [r], relaxed,
                       Record(now, TxId(call, |results|), batch[|results|], relaxed, r))
  {
  }

  function Increment(counts: Counts, k: Pubkey): Counts { counts[k := CountOf(counts, k) + 1] }

  /** Lower the count of `k`, and remove the entry when it drops to zero. */
  function Decrement(counts: Counts, k: Pubkey): Counts {
    if k in counts then
      if counts[k] <= 1 then counts - {k} else counts[k := counts[k] - 1]
    else counts
  }

  function LockOne(table: Table, lock: Lock): Table {
    if lock.writable then table.(writeLocks := Increment(table.writeLocks, lock.key))
    else table.(readonlyLocks := Increment(table.readonlyLocks, lock.key))
  }

  function UnlockOne(table: Table, lock: Lock): Table {
    if lock.writable then table.(writeLocks := Decrement(table.writeLocks, lock.key))
    else table.(readonlyLocks := Decrement(table.readonlyLocks, lock.key))
  }

  lemma LockOneCounts(table: Table, lock: Lock, other: Lock)
    ensures Count(LockOne(table, lock), other) == Count(table, other) + if other == lock then 1 else 0
    ensures Count(UnlockOne(table, lock), other) ==
            if other == lock && Count(table, other) > 0 then Count(table, other) - 1 else Count(table, other)
    ensures NoZeros(table) ==> NoZeros(LockOne(table, lock)) && NoZeros(UnlockOne(table, lock))
  {
  }

  lemma LockOneMore(table: Table, tx: Tx, mid: Table, lock: Lock)
    ensures LockedTo(table, tx, mid) ==> LockedTo(table, tx + [lock], LockOne(mid, lock))
    ensures UnlockedTo(table, tx, mid) ==> UnlockedTo(table, tx + [lock], UnlockOne(mid, lock))
  {
    forall other {
      LockOneCounts(mid, lock, other);
    }
    assert forall other :: multiset(tx + [lock])[other] == multiset(tx)[other] + if other == lock then 1 else 0;
  }

  class Accounts {
    var writeLocks: Counts
    var readonlyLocks: Counts
    /** The transactions that hold locks, by call. */
    ghost var held: Held
    ghost var calls: nat

    function Value(): Table
      reads this
    {
      Table(writeLocks, readonlyLocks)
    }

    ghost function State(): Holding
      reads this
    {
      Holding(held, calls)
    }

    ghost predicate Valid()
      reads this
    {
      && Represents(Value(), held) && Exclusive(held)
      && forall id | id in held :: id.call < calls && Distinct(KeysOf(held[id].tx))
    }

    constructor ()
      ensures Valid() && held == map[]
    {
      writeLocks, readonlyLocks, held, calls := map[], map[], map[], 0;
      new;
      assert forall lock :: HoldersOf(held, lock) == {};
    }

    method LockKeys(tx: Tx)
      modifies this`writeLocks, this`readonlyLocks
      ensures LockedTo(old(Value()), tx, Value())
    {
      for i := 0 to |tx|
        invariant LockedTo(old(Value()), tx[..i], Value())
      {
        ghost var mid := Value();
        LockOneMore(old(Value()), tx[..i], mid, tx[i]);
        assert tx[..i + 1] == tx[..i] + [tx[i]];
        if tx[i].writable {
          writeLocks := Increment(writeLocks, tx[i].key);
        } else {
          readonlyLocks := Increment(readonlyLocks, tx[i].key);
        }
        assert Value() == LockOne(mid, tx[i]);
      }
      assert tx[..|tx|] == tx;
    }

    method UnlockKeys(tx: Tx)
      modifies this`writeLocks, this`readonlyLocks
      ensures UnlockedTo(old(Value()), tx, Value())
    {
      for i := 0 to |tx|
        invariant UnlockedTo(old(Value()), tx[..i], Value())
      {
        ghost var mid := Value();
        LockOneMore(old(Value()), tx[..i], mid, tx[i]);
        assert tx[..i + 1] == tx[..i] + [tx[i]];
        if tx[i].writable {
          writeLocks := Decrement(writeLocks, tx[i].key);
        } else {
          readonlyLocks := Decrement(readonlyLocks, tx[i].key);
        }
        assert Value() == UnlockOne(mid, tx[i]);
      }
      assert tx[..|tx|] == tx;
    }

    method CanLockAccounts(tx: Tx) returns (r: Result)
      ensures r == if CanLock(Value(), tx) then Ok else Err(AccountInUse)
    {
      for i := 0 to |tx|
        invariant forall j | 0 <= j < i :: CanLockOne(Value(), tx[j])
      {
        if !CanLockOne(Value(), tx[i]) {
          return Err(AccountInUse);
        }
      }
      return Ok;
    }

    /** Lock a transaction unless it conflicts with a holder. */
    method TryLockAccounts(tx: Tx) returns (r: Result)
      modifies this`writeLocks, this`readonlyLocks
      ensures r == if CanLock(old(Value()), tx) then Ok else Err(AccountInUse)
      ensures if r.Ok? then LockedTo(old(Value()), tx, Value()) else Value() == old(Value())
    {
      r := CanLockAccounts(tx);
      if r.Ok? {
        LockKeys(tx);
      }
    }

    /** Lock one transaction of a strict call, and make it a holder when it is admitted. */
    method LockNext(ghost before: Held, ghost call: nat, batch: seq<Validated>, results: seq<Result>)
      returns (r: Result)
      requires |results| < |batch| && DistinctKeys(batch)
      requires Represents(Value(), held) && Exclusive(held) && AdmittedTo(before, call, batch, results, false, held)
      requires forall id | id in before :: id.call != call
      modifies this`writeLocks, this`readonlyLocks, this`held
      ensures Represents(Value(), held) && Exclusive(held)
      ensures AdmittedTo(before, call, batch, results + [r], false, held)
      ensures ResultOk(before, batch, false, results + [r], |results|)
    {
      ghost var id := TxId(call, |results|);
      match batch[|results|]
      case Rejected(error) =>
        r := Err(error);
        AdmittedOneMore(before, call, batch, results, false, held, r);
      case Keys(tx) =>
        CanLockIffNoConflict(Value(), held, tx);
        StrictInUse(before, call, batch, results, held);
        r := TryLockAccounts(tx);
        AdmittedOneMore(before, call, batch, results, false, held, r);
        if r.Ok? {
          HoldOne(old(Value()), held, id, Holder(tx, false), Value());
          AdmitOne(held, id, Holder(tx, false));
          held := held[id := Holder(tx, false)];
        }
        assert InUse(before, batch, results + [r], false, |results|)
          <==> InUse(before, batch, results, false, |results|);
    }

    /** Lock the transactions one after the other. */
    method LockStrict(batch: seq<Validated>) returns (results: seq<Result>)
      requires Valid() && DistinctKeys(batch)
      modifies this
      ensures Valid() && calls == old(calls) + 1
      ensures |results| == |batch| && AdmittedTo(old(held), old(calls), batch, results, false, held)
      ensures forall i | 0 <= i < |batch| :: ResultOk(old(held), batch, false, results, i)
    {
      results := [];
      for n := 0 to |batch|
        invariant |results| == n && calls == old(calls)
        invariant
          && Represents(Value(), held) && Exclusive(held)
          && AdmittedTo(old(held), calls, batch, results, false, held)
        invariant forall i | 0 <= i < n :: ResultOk(old(held), batch, false, results, i)
      {
        var r := LockNext(old(held), calls, batch, results);
        forall i | 0 <= i < n ensures ResultOk(old(held), batch, false, results + [r], i) {
          ResultStays(old(held), batch, false, results, r, i);
        }
        results := results + [r];
      }
      calls := calls + 1;
      AdmittedIsValid(old(held), old(calls), batch, results, false, held);
    }

    /** The first pass over a relaxed batch: turn down what conflicts with the holders before the call. */
    method CheckBatch(batch: seq<Validated>) returns (checked: seq<Validated>)
      requires Represents(Value(), held)
      ensures |checked| == |batch|
      ensures forall i | 0 <= i < |batch| :: checked[i] == Check(held, batch[i])
    {
      checked := [];
      for i := 0 to |batch|
        invariant |checked| == i
        invariant forall j | 0 <= j < i :: checked[j] == Check(held, batch[j])
      {
        var next := batch[i];
        if next.Keys? {
          CanLockIffNoConflict(Value(), held, next.tx);
          var r := CanLockAccounts(next.tx);
          if r.Err? {
            next := Rejected(r.error);
          }
        }
        checked := checked + [next];
      }
    }

    /** The second pass: lock what is left. */
    method LockChecked(
      ghost before: Held, ghost call: nat, batch: seq<Validated>, results: seq<Result>, checked: Validated)
      returns (r: Result)
      requires |results| < |batch| && DistinctKeys(batch) && checked == Check(before, batch[|results|])
      requires Represents(Value(), held) && Exclusive(held) && AdmittedTo(before, call, batch, results, true, held)
      requires forall id | id in before :: id.call != call
      modifies this`writeLocks, this`readonlyLocks, this`held
      ensures Represents(Value(), held) && Exclusive(held) && AdmittedTo(before, call, batch, results + [r], true, held)
      ensures ResultOk(before, batch, true, results + [r], |results|)
    {
      ghost var id := TxId(call, |results|);
      r := if checked.Keys? then Ok else Err(checked.error);
      AdmittedOneMore(before, call, batch, results, true, held, r);
      if checked.Keys? {
        LockKeys(checked.tx);
        HoldOne(old(Value()), held, id, Holder(checked.tx, true), Value());
        forall a | a in held && Conflict(checked.tx, held[a].tx) ensures a.call == call && held[a].relaxed {
          assert a !in before;
          assert a == TxId(call, a.index) && results[a.index].Ok?;
        }
        AdmitOne(held, id, Holder(checked.tx, true));
        held := held[id := Holder(checked.tx, true)];
      }
    }

    /** Lock the transactions of a batch that do not conflict with holders from before; conflicts inside
        the batch do not matter. */
    method TryLockTransactionBatch(batch: seq<Validated>) returns (results: seq<Result>)
      requires Valid() && DistinctKeys(batch)
      modifies this
      ensures Valid() && calls == old(calls) + 1
      ensures |results| == |batch| && AdmittedTo(old(held), old(calls), batch, results, true, held)
      ensures forall i | 0 <= i < |batch| :: ResultOk(old(held), batch, true, results, i)
    {
      var checked := CheckBatch(batch);
      results := [];
      for n := 0 to |batch|
        invariant |results| == n && calls == old(calls)
        invariant
          && Represents(Value(), held) && Exclusive(held)
          && AdmittedTo(old(held), calls, batch, results, true, held)
        invariant forall i | 0 <= i < n :: ResultOk(old(held), batch, true, results, i)
      {
        var r := LockChecked(old(held), calls, batch, results, checked[n]);
        forall i | 0 <= i < n ensures ResultOk(old(held), batch, true, results + [r], i) {
          ResultStays(old(held), batch, true, results, r, i);
        }
        results := results + [r];
      }
      calls := calls + 1;
      AdmittedIsValid(old(held), old(calls), batch, results, true, held);
    }

    method ValidateBatch(txs: seq<Tx>, given: seq<Result>, limit: nat) returns (batch: seq<Validated>)
      ensures batch == ValidatedBatch(txs, given, limit) && DistinctKeys(batch)
    {
      batch := [];
      var n := if |txs| <= |given| then |txs| else |given|;
      for i := 0 to n
        invariant |batch| == i
        invariant forall j | 0 <= j < i :: batch[j] == Validate(txs[j], given[j], limit)
      {
        var next := given[i];
        if next.Ok? {
          next := ValidateAccountLocks(txs[i], limit);
        }
        batch := batch + [if next.Ok? then Keys(txs[i]) else Rejected(next.error)];
      }
    }

    /** Lock a batch: a transaction keeps its earlier error, then fails validation, then is refused as in
        use exactly when it conflicts with a holder. */
    method LockAccounts(txs: seq<Tx>, given: seq<Result>, limit: nat, relaxed: bool) returns (results: seq<Result>)
      requires Valid()
      modifies this
      ensures Valid() && LockCall(old(State()), ValidatedBatch(txs, given, limit), relaxed, results, State())
      ensures |results| == if |txs| <= |given| then |txs| else |given|
      ensures forall i | 0 <= i < |results| :: LockResult(old(held), txs, given, limit, relaxed, results, i)
      ensures forall id :: id in held <==>
        id in old(held) || (id.call == old(calls) && id.index < |results| && results[id.index] == Ok)
      ensures forall id | id in old(held) :: held[id] == old(held)[id]
      ensures forall i | 0 <= i < |results| && results[i] == Ok ::
        held[TxId(old(calls), i)] == Holder(txs[i], relaxed)
    {
      var batch := ValidateBatch(txs, given, limit);
      if relaxed {
        results := TryLockTransactionBatch(batch);
      } else {
        results := LockStrict(batch);
      }
      forall i | 0 <= i < |results|
        ensures LockResult(old(held), txs, given, limit, relaxed, results, i)
      {
        ResultMeans(old(held), txs, given, limit, relaxed, results, i);
      }
    }

    method Unlock(ghost id: TxId, tx: Tx)
      requires Valid() && id in held && held[id].tx == tx
      modifies this`writeLocks, this`readonlyLocks, this`held
      ensures Valid() && held == old(held) - {id}
    {
      UnlockKeys(tx);
      ReleaseOne(old(Value()), held, id, Value());
      held := held - {id};
    }

    /** Unlock the transactions of a call, given its own results. */
    method UnlockAccounts(ghost call: nat, txs: seq<Tx>, results: seq<Result>)
      requires Valid() && |results| <= |txs|
      requires forall i | 0 <= i < |results| && results[i].Ok? ::
        TxId(call, i) in held && held[TxId(call, i)].tx == txs[i]
      modifies this`writeLocks, this`readonlyLocks, this`held
      ensures Valid() && UnlockCall(old(State()), call, results, State())
    {
      if forall i | 0 <= i < |results| :: results[i].Err? {
        return;
      }
      for n := 0 to |results|
        invariant Valid() && ReleasedTo(old(held), call, results, n, held)
      {
        ReleasedOneMore(old(held), call, results, n, held);
        if results[n].Ok? {
          Unlock(TxId(call, n), txs[n]);
        }
      }
    }
  }

  /** The holders after the first `n` transactions of a call have been released. */
  ghost predicate ReleasedTo(before: Held, call: nat, results: seq<Result>, n: nat, after: Held)
    requires n <= |results|
  {
    && (forall id :: id in after <==> id in before && !(id.call == call && id.index < n && results[id.index].Ok?))
    && (forall id | id in after :: after[id] == before[id])
  }

  lemma ReleasedOneMore(before: Held, call: nat, results: seq<Result>, n: nat, mid: Held)
    requires n < |results| && ReleasedTo(before, call, results, n, mid)
    ensures TxId(call, n) in before ==> TxId(call, n) in mid
    ensures ReleasedTo(before, call, results, n + 1, if results[n].Ok? then mid - {TxId(call, n)} else mid)
  {
  }

  lemma ReleaseUndoesAdmit(
    before: Held, call: nat, batch: seq<Validated>, results: seq<Result>, relaxed: bool, mid: Held, after: Held)
    requires |results| <= |batch| && AdmittedTo(before, call, batch, results, relaxed, mid)
    requires ReleasedTo(mid, call, results, |results|, after)
    requires forall id | id in before :: id.call != call
    ensures after == before
  {
  }

  /** The check of the first pass, in terms of the holders. */
  ghost function Check(held: Held, batched: Validated): Validated {
    if batched.Keys? && exists id | id in held :: Conflict(batched.tx, held[id].tx)
    then Rejected(AccountInUse) else batched
  }

  lemma AdmittedIsValid(
    before: Held, call: nat, batch: seq<Validated>, results: seq<Result>, relaxed: bool, after: Held)
    requires |results| <= |batch| && DistinctKeys(batch) && AdmittedTo(before, call, batch, results, relaxed, after)
    requires forall id | id in before :: id.call < call && Distinct(KeysOf(before[id].tx))
    ensures forall id | id in after :: id.call < call + 1 && Distinct(KeysOf(after[id].tx))
  {
    forall id | id in after ensures id.call < call + 1 && Distinct(KeysOf(after[id].tx)) {
      assert id in before || id == TxId(call, id.index);
    }
  }

  // ----- Runs of calls -----

  /** The holders, and the number of lock calls so far. */
  datatype Holding = Holding(held: Held, calls: nat)

  /** One call that locks a batch. */
  ghost predicate LockCall(
    before: Holding, batch: seq<Validated>, relaxed: bool, results: seq<Result>, after: Holding)
  {
    && |results| == |batch| && after.calls == before.calls + 1
    && AdmittedTo(before.held, before.calls, batch, results, relaxed, after.held)
    && forall i | 0 <= i < |results| :: ResultOk(before.held, batch, relaxed, results, i)
  }

  /** One call that unlocks the transactions of an earlier call. */
  ghost predicate UnlockCall(before: Holding, call: nat, results: seq<Result>, after: Holding) {
    after.calls == before.calls && ReleasedTo(before.held, call, results, |results|, after.held)
  }

  ghost predicate Next(before: Holding, after: Holding) {
    || (exists batch, relaxed, results :: LockCall(before, batch, relaxed, results, after))
    || (exists call, results :: UnlockCall(before, call, results, after))
  }

  ghost predicate Run(states: seq<Holding>) {
    && |states| > 0 && states[0] == Holding(map[], 0)
    && forall i | 0 < i < |states| :: Next(states[i - 1], states[i])
  }

  ghost predicate CallsPast(state: Holding) { forall id | id in state.held :: id.call < state.calls }

  /** A transaction that a call admits does not conflict with one that was held before the call. */
  lemma AdmittedAvoidsHolders(before: Holding, batch: seq<Validated>, relaxed: bool, results: seq<Result>,
                              after: Holding, id: TxId, other: TxId)
    requires LockCall(before, batch, relaxed, results, after)
    requires id in after.held && id !in before.held && other in before.held
    ensures !Conflict(after.held[id].tx, before.held[other].tx)
  {
    assert id == TxId(before.calls, id.index) && results[id.index].Ok?;
    assert ResultOk(before.held, batch, relaxed, results, id.index);
    assert !InUse(before.held, batch, results, relaxed, id.index);
  }

  /** Without relaxed locks, a transaction does not conflict with one that the same call admitted earlier. */
  lemma AdmittedAvoidsEarlier(before: Holding, batch: seq<Validated>, results: seq<Result>, after: Holding,
                              id: TxId, other: TxId)
    requires LockCall(before, batch, false, results, after)
    requires id in after.held && id !in before.held && other in after.held && other !in before.held
    requires other.index < id.index
    ensures !Conflict(after.held[id].tx, after.held[other].tx)
  {
    assert id == TxId(before.calls, id.index) && results[id.index].Ok?;
    assert other == TxId(before.calls, other.index) && results[other.index].Ok?;
    assert ResultOk(before.held, batch, false, results, id.index);
    assert !InUse(before.held, batch, results, false, id.index);
  }

  lemma LockCallExcludes(before: Holding, batch: seq<Validated>, relaxed: bool, results: seq<Result>, after: Holding)
    requires LockCall(before, batch, relaxed, results, after) && CallsPast(before) && Exclusive(before.held)
    ensures CallsPast(after) && Exclusive(after.held)
  {
    forall a, b | a in after.held && b in after.held && a != b && Conflict(after.held[a].tx, after.held[b].tx)
      ensures a.call == b.call && after.held[a].relaxed && after.held[b].relaxed
    {
      ConflictIsSymmetric(after.held[a].tx, after.held[b].tx);
      if a !in before.held && b in before.held {
        AdmittedAvoidsHolders(before, batch, relaxed, results, after, a, b);
      } else if a in before.held && b !in before.held {
        AdmittedAvoidsHolders(before, batch, relaxed, results, after, b, a);
      } else if a !in before.held {
        assert a == TxId(before.calls, a.index) && b == TxId(before.calls, b.index);
        if !relaxed && a.index < b.index {
          AdmittedAvoidsEarlier(before, batch, results, after, b, a);
        } else if !relaxed {
          AdmittedAvoidsEarlier(before, batch, results, after, a, b);
        }
      }
    }
  }

  lemma {:induction false} RunExcludes(states: seq<Holding>, i: nat)
    requires Run(states) && i < |states|
    ensures CallsPast(states[i]) && Exclusive(states[i].held)
  {
    if i > 0 {
      RunExcludes(states, i - 1);
      var before, after := states[i - 1], states[i];
      assert Next(before, after);
      if batch, relaxed, results :| LockCall(before, batch, relaxed, results, after) {
        LockCallExcludes(before, batch, relaxed, results, after);
      }
    }
  }

  /** After any calls that lock and unlock, transactions held from different calls never conflict, and
      without relaxed locks no two do. */
  lemma HoldersDoNotConflict(states: seq<Holding>, i: nat, a: TxId, b: TxId)
    requires Run(states) && i < |states|
    requires a in states[i].held && b in states[i].held && a != b
    requires a.call != b.call || !states[i].held[a].relaxed || !states[i].held[b].relaxed
    ensures !Conflict(states[i].held[a].tx, states[i].held[b].tx)
  {
    RunExcludes(states, i);
  }

  /** Unlocking a batch with its own results restores the tables exactly. */
  method LockAndUnlock(accounts: Accounts, txs: seq<Tx>, given: seq<Result>, limit: nat, relaxed: bool)
    requires accounts.Valid()
    modifies accounts
    ensures accounts.Valid() && accounts.held == old(accounts.held) && accounts.Value() == old(accounts.Value())
  {
    ghost var call, before := accounts.calls, accounts.held;
    var results := accounts.LockAccounts(txs, given, limit, relaxed);
    ghost var mid := accounts.held;
    accounts.UnlockAccounts(call, txs, results);
    ReleaseUndoesAdmit(before, call, ValidatedBatch(txs, given, limit), results, relaxed, mid, accounts.held);
    TableIsDetermined(accounts.Value(), old(accounts.Value()), before);
  }
}
