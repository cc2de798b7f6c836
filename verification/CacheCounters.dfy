/** The counters of the write cache at the grain of the source's atomic operations.  An insert swaps the
    account in the map first and then adjusts four shared counters one by one, so other threads see the
    states in between. */
module CacheCounters {
  import opened Types
  import opened Sums
  import opened CacheAccounting

  type OpId = nat

  datatype Cache = Cache(accounts: map<Pubkey, Account>, size: int, count: int)

  /** An insert in flight.  `stage` says which counter it updates next: the slot's size, the total size, and
      for a new key the slot's count and the total count. */
  datatype Op = Op(id: CacheId, key: Pubkey, grow: int, isNew: bool, stage: nat)

  /** The last reference to a slot cache is gone; its contribution leaves the totals. */
  datatype Dropped = Dropped(size: int, count: int, sizeDone: bool)

  /** Counters are kept as integers; the machine word is the integer modulo 2^64, so a counter has wrapped
      below zero exactly when the integer is negative. */
  datatype State = State(
    caches: map<CacheId, Cache>, slots: map<Slot, CacheId>, ops: map<OpId, Op>, drops: map<OpId, Dropped>,
    total: int, totalCount: int, nextCache: CacheId, nextOp: OpId)

  function Word(counter: int): nat { counter % 0x1_0000_0000_0000_0000 }

  // ----- Steps -----

  datatype Step =
    | Open(slot: Slot)
    | MapInsert(id: CacheId, key: Pubkey, account: Account)
    | Adjust(o: OpId)
    | RemoveSlot(slot: Slot)
    | Release(id: CacheId)
    | DropSize(o: OpId)
    | DropCount(o: OpId)

  ghost predicate Enabled(state: State, step: Step) {
    match step
    case Open(slot) => slot !in state.slots
    case MapInsert(id, key, account) => id in state.caches
    case Adjust(o) => o in state.ops && state.ops[o].id in state.caches
    case RemoveSlot(slot) => slot in state.slots
    case Release(id) =>
      && id in state.caches && (forall s | s in state.slots :: state.slots[s] != id)
      && (forall o | o in state.ops :: state.ops[o].id != id)
    case DropSize(o) => o in state.drops && !state.drops[o].sizeDone
    case DropCount(o) => o in state.drops && state.drops[o].sizeDone
  }

  function LenAt(accounts: map<Pubkey, Account>, key: Pubkey): int {
    if key in accounts then DataLen(accounts[key]) else 0
  }

  function NewOp(accounts: map<Pubkey, Account>, id: CacheId, key: Pubkey, account: Account): Op {
    Op(id, key, DataLen(account) - LenAt(accounts, key), key !in accounts, 0)
  }

  /** The map swap, after which the counters are still to be adjusted, unless nothing changes in them. */
  function DoMapInsert(state: State, id: CacheId, key: Pubkey, account: Account): State
    requires id in state.caches
  {
    var cache := state.caches[id];
    var op := NewOp(cache.accounts, id, key, account);
    var swapped := state.(caches := state.caches[id := cache.(accounts := cache.accounts[key := account])]);
    if !op.isNew && op.grow == 0 then swapped
    else swapped.(ops := state.ops[state.nextOp := op], nextOp := state.nextOp + 1)
  }

  /** The op after its next counter update, or nothing when it is done. */
  function Rest(ops: map<OpId, Op>, o: OpId): map<OpId, Op>
    requires o in ops
  {
    var op := ops[o];
    if op.stage == 0 || (op.isNew && op.stage < 3) then ops[o := op.(stage := op.stage + 1)] else ops - {o}
  }

  function DoAdjust(state: State, o: OpId): State
    requires o in state.ops && state.ops[o].id in state.caches
  {
    var op := state.ops[o];
    var cache := state.caches[op.id];
    var rest := Rest(state.ops, o);
    if op.stage == 0 then state.(caches := state.caches[op.id := cache.(size := cache.size + op.grow)], ops := rest)
    else if op.stage == 1 then state.(total := state.total + op.grow, ops := rest)
    else if op.stage == 2 then state.(caches := state.caches[op.id := cache.(count := cache.count + 1)], ops := rest)
    else state.(totalCount := state.totalCount + 1, ops := rest)
  }

  ghost function Apply(state: State, step: Step): State
    requires Enabled(state, step)
  {
    match step
    case Open(slot) =>
      state.(caches := state.caches[state.nextCache := Cache(map[], 0, 0)],
             slots := state.slots[slot := state.nextCache], nextCache := state.nextCache + 1)
    case MapInsert(id, key, account) => DoMapInsert(state, id, key, account)
    case Adjust(o) => DoAdjust(state, o)
    case RemoveSlot(slot) => state.(slots := state.slots - {slot})
    case Release(id) =>
      var cache := state.caches[id];
      state.(caches := state.caches - {id}, nextOp := state.nextOp + 1,
             drops := state.drops[state.nextOp := Dropped(cache.size, cache.count, false)])
    case DropSize(o) =>
      var drop := state.drops[o];
      state.(total := state.total - drop.size, drops := state.drops[o := drop.(sizeDone := true)])
    case DropCount(o) =>
      state.(totalCount := state.totalCount - state.drops[o].count, drops := state.drops - {o})
  }

  // ----- What is still due -----

  ghost function SizeDue(id: CacheId): Op -> int { (op: Op) => if op.id == id && op.stage == 0 then op.grow else 0 }

  ghost function CountDue(id: CacheId): Op -> int {
    (op: Op) => if op.id == id && op.isNew && op.stage <= 2 then 1 else 0
  }

  function TotalDue(op: Op): int { if op.stage <= 1 then op.grow else 0 }

  function TotalCountDue(op: Op): int { if op.isNew && op.stage <= 3 then 1 else 0 }

  function DropSizeDue(drop: Dropped): int { if drop.sizeDone then 0 else drop.size }

  function DropCountDue(drop: Dropped): int { drop.count }

  function One(account: Account): int { 1 }

  /** What the accounts of a slot cache weigh. */
  ghost function Weight(w: Account -> int): Cache -> int { (cache: Cache) => SumOver(cache.accounts, w) }

  /** An insert in flight refers to an account that is in the map of its slot cache. */
  ghost predicate OpOk(caches: map<CacheId, Cache>, op: Op) {
    op.id in caches && op.key in caches[op.id].accounts && op.stage <= (if op.isNew then 3 else 1)
  }

  /** A slot cache's counters, plus what inserts in flight will still add, match its accounts. */
  ghost predicate CacheOk(ops: map<OpId, Op>, id: CacheId, cache: Cache) {
    && cache.size + SumOver(ops, SizeDue(id)) == SumOver(cache.accounts, DataLen)
    && cache.count + SumOver(ops, CountDue(id)) == SumOver(cache.accounts, One)
  }

  ghost predicate TotalOk(state: State) {
    state.total + SumOver(state.ops, TotalDue)
    == SumOver(state.caches, Weight(DataLen)) + SumOver(state.drops, DropSizeDue)
  }

  ghost predicate TotalCountOk(state: State) {
    state.totalCount + SumOver(state.ops, TotalCountDue)
    == SumOver(state.caches, Weight(One)) + SumOver(state.drops, DropCountDue)
  }

  ghost predicate CachesOk(ops: map<OpId, Op>, caches: map<CacheId, Cache>) {
    forall id | id in caches :: CacheOk(ops, id, caches[id])
  }

  ghost predicate OpsOk(caches: map<CacheId, Cache>, ops: map<OpId, Op>) {
    forall o | o in ops :: OpOk(caches, ops[o])
  }

  ghost predicate IdsOk(state: State) {
    && (forall id | id in state.caches :: id < state.nextCache)
    && (forall s | s in state.slots :: state.slots[s] in state.caches)
    && (forall o | o in state.ops || o in state.drops :: o < state.nextOp)
  }

  ghost predicate Inv(state: State) {
    && IdsOk(state) && OpsOk(state.caches, state.ops) && CachesOk(state.ops, state.caches)
    && TotalOk(state) && TotalCountOk(state)
  }

  // ----- Every step keeps the invariant -----

  lemma {:induction false} SumOfZeros<K, V>(m: map<K, V>, f: V -> int)
    requires forall k | k in m :: f(m[k]) == 0
    ensures SumOver(m, f) == 0
    decreases |m|
  {
    if m != map[] {
      var k :| k in m;
      SumSplits(m, f, k);
      SumOfZeros(m - {k}, f);
    }
  }

  lemma NothingDue(ops: map<OpId, Op>, id: CacheId)
    requires forall o | o in ops :: ops[o].id != id
    ensures SumOver(ops, SizeDue(id)) == 0 && SumOver(ops, CountDue(id)) == 0
  {
    SumOfZeros(ops, SizeDue(id));
    SumOfZeros(ops, CountDue(id));
  }

  /** Changing one cache leaves the others matched. */
  lemma CachesStayOk(ops: map<OpId, Op>, caches: map<CacheId, Cache>, caches': map<CacheId, Cache>, id: CacheId)
    requires CachesOk(ops, caches)
    requires id in caches' ==> CacheOk(ops, id, caches'[id])
    requires forall c | c in caches' && c != id :: c in caches && caches'[c] == caches[c]
    ensures CachesOk(ops, caches')
  {
  }

  lemma OpsStayOk(caches: map<CacheId, Cache>, caches': map<CacheId, Cache>, ops: map<OpId, Op>, id: CacheId)
    requires OpsOk(caches, ops)
    requires forall c | c in caches && c != id :: c in caches' && caches'[c] == caches[c]
    requires forall o | o in ops :: ops[o].id != id
    ensures OpsOk(caches', ops)
  {
    forall o | o in ops ensures OpOk(caches', ops[o]) { assert OpOk(caches, ops[o]); }
  }

  lemma OpenKeepsTotals(state: State, slot: Slot)
    requires IdsOk(state) && TotalOk(state) && TotalCountOk(state) && Enabled(state, Open(slot))
    ensures TotalOk(Apply(state, Open(slot))) && TotalCountOk(Apply(state, Open(slot)))
  {
    SumUpdates(state.caches, Weight(DataLen), state.nextCache, Cache(map[], 0, 0));
    SumUpdates(state.caches, Weight(One), state.nextCache, Cache(map[], 0, 0));
  }

  lemma OpenKeeps(state: State, slot: Slot)
    requires Inv(state) && Enabled(state, Open(slot))
    ensures Inv(Apply(state, Open(slot)))
  {
    var state' := Apply(state, Open(slot));
    var id := state.nextCache;
    forall o | o in state.ops ensures state.ops[o].id != id { assert OpOk(state.caches, state.ops[o]); }
    NothingDue(state.ops, id);
    CachesStayOk(state.ops, state.caches, state'.caches, id);
    OpsStayOk(state.caches, state'.caches, state.ops, id);
    OpenKeepsTotals(state, slot);
  }

  lemma ReleaseKeepsTotals(state: State, id: CacheId)
    requires IdsOk(state) && TotalOk(state) && TotalCountOk(state) && Enabled(state, Release(id))
    requires CacheOk(state.ops, id, state.caches[id])
    ensures TotalOk(Apply(state, Release(id))) && TotalCountOk(Apply(state, Release(id)))
  {
    var cache := state.caches[id];
    var drop := Dropped(cache.size, cache.count, false);
    NothingDue(state.ops, id);
    SumSplits(state.caches, Weight(DataLen), id);
    SumUpdates(state.drops, DropSizeDue, state.nextOp, drop);
    SumSplits(state.caches, Weight(One), id);
    SumUpdates(state.drops, DropCountDue, state.nextOp, drop);
  }

  lemma ReleaseKeeps(state: State, id: CacheId)
    requires Inv(state) && Enabled(state, Release(id))
    ensures Inv(Apply(state, Release(id)))
  {
    var state' := Apply(state, Release(id));
    assert CacheOk(state.ops, id, state.caches[id]);
    CachesStayOk(state.ops, state.caches, state'.caches, id);
    OpsStayOk(state.caches, state'.caches, state.ops, id);
    ReleaseKeepsTotals(state, id);
  }

  lemma DropSizeKeeps(state: State, o: OpId)
    requires Inv(state) && o in state.drops && !state.drops[o].sizeDone
    ensures Inv(Apply(state, DropSize(o)))
  {
    var drop := state.drops[o];
    SumUpdates(state.drops, DropSizeDue, o, drop.(sizeDone := true));
    SumUpdates(state.drops, DropCountDue, o, drop.(sizeDone := true));
  }

  lemma DropCountKeeps(state: State, o: OpId)
    requires Inv(state) && o in state.drops && state.drops[o].sizeDone
    ensures Inv(Apply(state, DropCount(o)))
  {
    SumSplits(state.drops, DropSizeDue, o);
    SumSplits(state.drops, DropCountDue, o);
  }

  /** Once its map is swapped, the new op owes exactly what the accounts gained. */
  lemma InsertOwes(accounts: map<Pubkey, Account>, key: Pubkey, account: Account, ops: map<OpId, Op>, o: OpId, op: Op)
    requires o !in ops && op == NewOp(accounts, op.id, key, account)
    ensures SumOver(accounts[key := account], DataLen) == SumOver(accounts, DataLen) + op.grow
    ensures SumOver(accounts[key := account], One) == SumOver(accounts, One) + (if op.isNew then 1 else 0)
    ensures SumOver(ops[o := op], SizeDue(op.id)) == SumOver(ops, SizeDue(op.id)) + op.grow
    ensures SumOver(ops[o := op], CountDue(op.id)) == SumOver(ops, CountDue(op.id)) + (if op.isNew then 1 else 0)
  {
    SumUpdates(accounts, DataLen, key, account);
    SumUpdates(accounts, One, key, account);
    SumUpdates(ops, SizeDue(op.id), o, op);
    SumUpdates(ops, CountDue(op.id), o, op);
  }

  lemma MapInsertKeepsCache(state: State, id: CacheId, key: Pubkey, account: Account)
    requires id in state.caches && state.nextOp !in state.ops && CacheOk(state.ops, id, state.caches[id])
    ensures CacheOk(DoMapInsert(state, id, key, account).ops, id, DoMapInsert(state, id, key, account).caches[id])
  {
    var accounts := state.caches[id].accounts;
    InsertOwes(accounts, key, account, state.ops, state.nextOp, NewOp(accounts, id, key, account));
  }

  lemma MapInsertKeepsOthers(state: State, id: CacheId, key: Pubkey, account: Account, c: CacheId)
    requires id in state.caches && state.nextOp !in state.ops && c != id
    requires c in state.caches && CacheOk(state.ops, c, state.caches[c])
    ensures CacheOk(DoMapInsert(state, id, key, account).ops, c, state.caches[c])
  {
    var op := NewOp(state.caches[id].accounts, id, key, account);
    SumUpdates(state.ops, SizeDue(c), state.nextOp, op);
    SumUpdates(state.ops, CountDue(c), state.nextOp, op);
  }

  lemma MapInsertKeepsCaches(state: State, id: CacheId, key: Pubkey, account: Account)
    requires IdsOk(state) && CachesOk(state.ops, state.caches) && id in state.caches
    ensures CachesOk(DoMapInsert(state, id, key, account).ops, DoMapInsert(state, id, key, account).caches)
  {
    var state' := DoMapInsert(state, id, key, account);
    forall c | c in state'.caches ensures CacheOk(state'.ops, c, state'.caches[c]) {
      if c == id {
        MapInsertKeepsCache(state, id, key, account);
      } else {
        MapInsertKeepsOthers(state, id, key, account, c);
      }
    }
  }

  lemma MapInsertKeepsIds(state: State, id: CacheId, key: Pubkey, account: Account)
    requires IdsOk(state) && id in state.caches
    ensures IdsOk(DoMapInsert(state, id, key, account))
  {
  }

  lemma MapInsertKeepsOps(state: State, id: CacheId, key: Pubkey, account: Account)
    requires id in state.caches && OpsOk(state.caches, state.ops)
    ensures OpsOk(DoMapInsert(state, id, key, account).caches, DoMapInsert(state, id, key, account).ops)
  {
    var state' := DoMapInsert(state, id, key, account);
    forall o | o in state'.ops ensures OpOk(state'.caches, state'.ops[o]) {
      if o in state.ops { assert OpOk(state.caches, state.ops[o]); }
    }
  }

  lemma MapInsertKeepsTotals(state: State, id: CacheId, key: Pubkey, account: Account)
    requires IdsOk(state) && TotalOk(state) && TotalCountOk(state) && id in state.caches
    ensures TotalOk(DoMapInsert(state, id, key, account)) && TotalCountOk(DoMapInsert(state, id, key, account))
  {
    var cache := state.caches[id];
    var cache' := cache.(accounts := cache.accounts[key := account]);
    var op := NewOp(cache.accounts, id, key, account);
    InsertOwes(cache.accounts, key, account, state.ops, state.nextOp, op);
    SumUpdates(state.caches, Weight(DataLen), id, cache');
    SumUpdates(state.caches, Weight(One), id, cache');
    SumUpdates(state.ops, TotalDue, state.nextOp, op);
    SumUpdates(state.ops, TotalCountDue, state.nextOp, op);
  }

  lemma MapInsertKeeps(state: State, id: CacheId, key: Pubkey, account: Account)
    requires Inv(state) && id in state.caches
    ensures Inv(DoMapInsert(state, id, key, account))
  {
    MapInsertKeepsIds(state, id, key, account);
    MapInsertKeepsCaches(state, id, key, account);
    MapInsertKeepsOps(state, id, key, account);
    MapInsertKeepsTotals(state, id, key, account);
  }

  lemma RestOwes(ops: map<OpId, Op>, o: OpId, due: Op -> int)
    requires o in ops
    ensures SumOver(Rest(ops, o), due) + due(ops[o])
         == SumOver(ops, due) + (if o in Rest(ops, o) then due(Rest(ops, o)[o]) else 0)
  {
    if o in Rest(ops, o) {
      SumUpdates(ops, due, o, Rest(ops, o)[o]);
    } else {
      SumSplits(ops, due, o);
    }
  }

  lemma AdjustKeepsCache(state: State, o: OpId, c: CacheId)
    requires o in state.ops && OpOk(state.caches, state.ops[o])
    requires c in state.caches && CacheOk(state.ops, c, state.caches[c])
    ensures c in DoAdjust(state, o).caches && CacheOk(DoAdjust(state, o).ops, c, DoAdjust(state, o).caches[c])
  {
    RestOwes(state.ops, o, SizeDue(c));
    RestOwes(state.ops, o, CountDue(c));
  }

  lemma AdjustKeepsTotals(state: State, o: OpId)
    requires o in state.ops && OpOk(state.caches, state.ops[o]) && TotalOk(state) && TotalCountOk(state)
    ensures TotalOk(DoAdjust(state, o)) && TotalCountOk(DoAdjust(state, o))
  {
    var op := state.ops[o];
    var cache' := DoAdjust(state, o).caches[op.id];
    RestOwes(state.ops, o, TotalDue);
    RestOwes(state.ops, o, TotalCountDue);
    SumUpdates(state.caches, Weight(DataLen), op.id, cache');
    SumUpdates(state.caches, Weight(One), op.id, cache');
  }

  lemma AdjustKeepsOps(state: State, o: OpId)
    requires o in state.ops && OpsOk(state.caches, state.ops) && OpOk(state.caches, state.ops[o])
    ensures OpsOk(DoAdjust(state, o).caches, DoAdjust(state, o).ops)
  {
    var state' := DoAdjust(state, o);
    forall p | p in state'.ops ensures OpOk(state'.caches, state'.ops[p]) { assert OpOk(state.caches, state.ops[p]); }
  }

  lemma AdjustKeepsIds(state: State, o: OpId)
    requires o in state.ops && IdsOk(state) && state.ops[o].id in state.caches
    ensures IdsOk(DoAdjust(state, o))
  {
  }

  lemma AdjustKeepsCaches(state: State, o: OpId)
    requires o in state.ops && OpOk(state.caches, state.ops[o]) && CachesOk(state.ops, state.caches)
    ensures CachesOk(DoAdjust(state, o).ops, DoAdjust(state, o).caches)
  {
    var state' := DoAdjust(state, o);
    forall c | c in state'.caches ensures CacheOk(state'.ops, c, state'.caches[c]) { AdjustKeepsCache(state, o, c); }
  }

  lemma AdjustKeeps(state: State, o: OpId)
    requires Inv(state) && o in state.ops && OpOk(state.caches, state.ops[o])
    ensures Inv(DoAdjust(state, o))
  {
    AdjustKeepsIds(state, o);
    AdjustKeepsCaches(state, o);
    AdjustKeepsOps(state, o);
    AdjustKeepsTotals(state, o);
  }

  /** Every step keeps the counters matched with the accounts and what is still due. */
  lemma StepKeeps(state: State, step: Step)
    requires Inv(state) && Enabled(state, step)
    ensures Inv(Apply(state, step))
  {
    match step
    case Open(slot) => OpenKeeps(state, slot);
    case MapInsert(id, key, account) => MapInsertKeeps(state, id, key, account);
    case Adjust(o) =>
      assert OpOk(state.caches, state.ops[o]);
      AdjustKeeps(state, o);
    case RemoveSlot(slot) =>
    case Release(id) => ReleaseKeeps(state, id);
    case DropSize(o) => DropSizeKeeps(state, o);
    case DropCount(o) => DropCountKeeps(state, o);
  }

  // ----- Runs -----

  const EMPTY := State(map[], map[], map[], map[], 0, 0, 0, 0)

  ghost predicate Next(state: State, state': State) {
    exists step :: Enabled(state, step) && state' == Apply(state, step)
  }

  ghost predicate Run(states: seq<State>) {
    && |states| > 0 && states[0] == EMPTY
    && forall i :: 0 <= i < |states| - 1 ==> Next(states[i], states[i + 1])
  }

  /** In every reachable state the counters plus what is still due equal the sums over the accounts. */
  lemma {:induction false} CountersPlusPending(states: seq<State>, i: nat)
    requires Run(states) && i < |states|
    ensures Inv(states[i])
  {
    if i > 0 {
      CountersPlusPending(states, i - 1);
      assert Next(states[i - 1], states[i - 1 + 1]);
      var step :| Enabled(states[i - 1], step) && states[i] == Apply(states[i - 1], step);
      StepKeeps(states[i - 1], step);
    }
  }

  lemma {:induction false} OnesCount(accounts: map<Pubkey, Account>)
    ensures SumOver(accounts, One) == |accounts|
    decreases |accounts|
  {
    if accounts != map[] {
      var k :| k in accounts;
      SumSplits(accounts, One, k);
      OnesCount(accounts - {k});
    }
  }

  /** The counters of the write cache are what its accounts weigh. */
  ghost predicate Exact(state: State) {
    && (forall id | id in state.caches ::
          && state.caches[id].size == SumOver(state.caches[id].accounts, DataLen)
          && state.caches[id].count == |state.caches[id].accounts|)
    && state.total == SumOver(state.caches, Weight(DataLen))
    && state.totalCount == SumOver(state.caches, Weight(One))
  }

  /** When no insert and no drop is in flight, all four kinds of counter are exact. */
  lemma QuietIsExact(state: State)
    requires Inv(state) && state.ops == map[] && state.drops == map[]
    ensures Exact(state)
  {
    forall id | id in state.caches
      ensures state.caches[id].size == SumOver(state.caches[id].accounts, DataLen)
      ensures state.caches[id].count == |state.caches[id].accounts|
    {
      assert CacheOk(state.ops, id, state.caches[id]);
      OnesCount(state.caches[id].accounts);
    }
  }

  // ----- Inserts of one key that do not overlap -----

  ghost predicate Alone(ops: map<OpId, Op>, id: CacheId, key: Pubkey) {
    forall o | o in ops :: ops[o].id != id || ops[o].key != key
  }

  /** No two inserts in flight are for the same key of the same slot cache. */
  ghost predicate Apart(ops: map<OpId, Op>) {
    forall o, p | o in ops && p in ops && o != p :: ops[o].id != ops[p].id || ops[o].key != ops[p].key
  }

  ghost predicate Within(caches: map<CacheId, Cache>, op: Op, due: int, w: Account -> int) {
    due != 0 ==> op.id in caches && op.key in caches[op.id].accounts && due <= w(caches[op.id].accounts[op.key])
  }

  ghost predicate AllWithin(caches: map<CacheId, Cache>, ops: map<OpId, Op>, due: Op -> int, w: Account -> int) {
    forall o | o in ops :: Within(caches, ops[o], due(ops[o]), w)
  }

  /** Taking an account out takes its weight out. */
  lemma TakeOut(caches: map<CacheId, Cache>, id: CacheId, key: Pubkey, w: Account -> int)
    requires id in caches && key in caches[id].accounts
    ensures SumOver(caches[id := caches[id].(accounts := caches[id].accounts - {key})], Weight(w))
         == SumOver(caches, Weight(w)) - w(caches[id].accounts[key])
  {
    SumSplits(caches[id].accounts, w, key);
    SumUpdates(caches, Weight(w), id, caches[id].(accounts := caches[id].accounts - {key}));
  }

  /** Inserts on different accounts, each owing no more than its account weighs, owe no more than the total. */
  lemma {:induction false} DuesWithin(
    caches: map<CacheId, Cache>, ops: map<OpId, Op>, due: Op -> int, w: Account -> int)
    requires Apart(ops) && AllWithin(caches, ops, due, w) && forall a: Account :: w(a) >= 0
    ensures SumOver(ops, due) <= SumOver(caches, Weight(w))
    decreases |ops|
  {
    if ops == map[] {
      forall c | c in caches ensures Weight(w)(caches[c]) >= 0 { SumIsNonNegative(caches[c].accounts, w); }
      SumIsNonNegative(caches, Weight(w));
    } else {
      var o :| o in ops;
      var op := ops[o];
      SumSplits(ops, due, o);
      assert Within(caches, op, due(op), w);
      if due(op) == 0 {
        DuesWithin(caches, ops - {o}, due, w);
      } else {
        TakeOut(caches, op.id, op.key, w);
        var caches' := caches[op.id := caches[op.id].(accounts := caches[op.id].accounts - {op.key})];
        forall p | p in ops - {o} ensures Within(caches', ops[p], due(ops[p]), w) {
          assert Within(caches, ops[p], due(ops[p]), w);
        }
        DuesWithin(caches', ops - {o}, due, w);
      }
    }
  }

  /** What an insert adds is at most the length of the account it put in the map. */
  ghost predicate Grown(caches: map<CacheId, Cache>, op: Op) {
    && op.id in caches && op.key in caches[op.id].accounts
    && op.grow <= DataLen(caches[op.id].accounts[op.key])
  }

  ghost predicate AllGrown(caches: map<CacheId, Cache>, ops: map<OpId, Op>) {
    forall o | o in ops :: Grown(caches, ops[o])
  }

  ghost predicate Separate(state: State) {
    && Apart(state.ops) && AllGrown(state.caches, state.ops)
    && forall o | o in state.drops :: state.drops[o].size >= 0 && state.drops[o].count >= 0
  }

  /** A new insert of a key starts only when no insert of that key in that slot cache is in flight. */
  ghost predicate InTurn(state: State, step: Step) {
    step.MapInsert? ==> Alone(state.ops, step.id, step.key)
  }

  ghost predicate NonNegative(state: State) {
    && (forall id | id in state.caches :: state.caches[id].size >= 0 && state.caches[id].count >= 0)
    && state.total >= 0 && state.totalCount >= 0
  }

  lemma CacheIsNonNegative(state: State, id: CacheId)
    requires Apart(state.ops) && AllGrown(state.caches, state.ops)
    requires id in state.caches && CacheOk(state.ops, id, state.caches[id])
    ensures state.caches[id].size >= 0 && state.caches[id].count >= 0
  {
    var only := map[id := state.caches[id]];
    forall o | o in state.ops
      ensures Within(only, state.ops[o], SizeDue(id)(state.ops[o]), DataLen)
      ensures Within(only, state.ops[o], CountDue(id)(state.ops[o]), One)
    {
      assert Grown(state.caches, state.ops[o]);
    }
    DuesWithin(only, state.ops, SizeDue(id), DataLen);
    DuesWithin(only, state.ops, CountDue(id), One);
    OnlyWeighs(id, state.caches[id], DataLen);
    OnlyWeighs(id, state.caches[id], One);
  }

  lemma OnlyWeighs(id: CacheId, cache: Cache, w: Account -> int)
    ensures SumOver(map[id := cache], Weight(w)) == SumOver(cache.accounts, w)
  {
    SumSplits(map[id := cache], Weight(w), id);
    assert map[id := cache] - {id} == map[];
  }

  lemma TotalsAreNonNegative(state: State)
    requires Separate(state) && TotalOk(state) && TotalCountOk(state)
    ensures state.total >= 0 && state.totalCount >= 0
  {
    forall o | o in state.ops
      ensures Within(state.caches, state.ops[o], TotalDue(state.ops[o]), DataLen)
      ensures Within(state.caches, state.ops[o], TotalCountDue(state.ops[o]), One)
    {
      assert Grown(state.caches, state.ops[o]);
    }
    DuesWithin(state.caches, state.ops, TotalDue, DataLen);
    DuesWithin(state.caches, state.ops, TotalCountDue, One);
    SumIsNonNegative(state.drops, DropSizeDue);
    SumIsNonNegative(state.drops, DropCountDue);
  }

  lemma SeparateIsNonNegative(state: State)
    requires Inv(state) && Separate(state)
    ensures NonNegative(state)
  {
    forall id | id in state.caches ensures state.caches[id].size >= 0 && state.caches[id].count >= 0 {
      CacheIsNonNegative(state, id);
    }
    TotalsAreNonNegative(state);
  }

  lemma MapInsertKeepsSeparate(state: State, id: CacheId, key: Pubkey, account: Account)
    requires IdsOk(state) && Separate(state) && id in state.caches && Alone(state.ops, id, key)
    ensures Separate(DoMapInsert(state, id, key, account))
  {
    var state' := DoMapInsert(state, id, key, account);
    forall o | o in state'.ops ensures Grown(state'.caches, state'.ops[o]) {
      if o in state.ops { assert Grown(state.caches, state.ops[o]); }
    }
  }

  lemma RestStaysApart(ops: map<OpId, Op>, o: OpId)
    requires Apart(ops) && o in ops
    ensures Apart(Rest(ops, o))
  {
  }

  lemma AdjustKeepsSeparate(state: State, o: OpId)
    requires Separate(state) && o in state.ops && state.ops[o].id in state.caches
    ensures Separate(DoAdjust(state, o))
  {
    var state' := DoAdjust(state, o);
    RestStaysApart(state.ops, o);
    assert state'.ops == Rest(state.ops, o) && state'.drops == state.drops;
    assert AllGrown(state'.caches, state'.ops) by {
      forall p | p in state'.ops ensures Grown(state'.caches, state'.ops[p]) {
        assert Grown(state.caches, state.ops[p]);
      }
    }
  }

  lemma OpenKeepsSeparate(state: State, slot: Slot)
    requires IdsOk(state) && Separate(state) && Enabled(state, Open(slot))
    ensures Separate(Apply(state, Open(slot)))
  {
    var state' := Apply(state, Open(slot));
    forall o | o in state'.ops ensures Grown(state'.caches, state'.ops[o]) {
      assert Grown(state.caches, state.ops[o]);
    }
  }

  lemma ReleaseKeepsSeparate(state: State, id: CacheId)
    requires Separate(state) && Enabled(state, Release(id))
    requires state.caches[id].size >= 0 && state.caches[id].count >= 0
    ensures Separate(Apply(state, Release(id)))
  {
    var state' := Apply(state, Release(id));
    forall o | o in state'.ops ensures Grown(state'.caches, state'.ops[o]) {
      assert Grown(state.caches, state.ops[o]);
    }
  }

  lemma StepKeepsSeparate(state: State, step: Step)
    requires Inv(state) && Separate(state) && Enabled(state, step) && InTurn(state, step)
    ensures Separate(Apply(state, step))
  {
    match step
    case MapInsert(id, key, account) => MapInsertKeepsSeparate(state, id, key, account);
    case Adjust(o) => AdjustKeepsSeparate(state, o);
    case Open(slot) => OpenKeepsSeparate(state, slot);
    case Release(id) =>
      CacheIsNonNegative(state, id);
      ReleaseKeepsSeparate(state, id);
    case RemoveSlot(_) =>
    case DropSize(_) =>
    case DropCount(_) =>
  }

  ghost predicate NextInTurn(state: State, state': State) {
    exists step :: Enabled(state, step) && InTurn(state, step) && state' == Apply(state, step)
  }

  ghost predicate RunInTurn(states: seq<State>) {
    && |states| > 0 && states[0] == EMPTY
    && forall i :: 0 <= i < |states| - 1 ==> NextInTurn(states[i], states[i + 1])
  }

  lemma {:induction false} InTurnStaysSeparate(states: seq<State>, i: nat)
    requires RunInTurn(states) && i < |states|
    ensures Inv(states[i]) && Separate(states[i])
  {
    if i > 0 {
      InTurnStaysSeparate(states, i - 1);
      assert NextInTurn(states[i - 1], states[i - 1 + 1]);
      var step :|
        Enabled(states[i - 1], step) && InTurn(states[i - 1], step) && states[i] == Apply(states[i - 1], step);
      StepKeeps(states[i - 1], step);
      StepKeepsSeparate(states[i - 1], step);
    }
  }

  /** While inserts of one key in one slot never overlap, no counter ever passes below zero. */
  lemma NoUnderflowInTurn(states: seq<State>, i: nat)
    requires RunInTurn(states) && i < |states|
    ensures NonNegative(states[i])
  {
    InTurnStaysSeparate(states, i);
    SeparateIsNonNegative(states[i]);
  }

  /** Two inserts of one key that overlap take the slot's counter below zero: the second one, which shortens
      the account the first one has just put in the map, adjusts the counter before the first one does. */
  lemma OverlapWraps(key: Pubkey, long: Account, short: Account) returns (states: seq<State>)
    requires DataLen(short) < DataLen(long) < 0x1_0000_0000_0000_0000
    ensures Run(states) && 0 in states[|states| - 1].caches
    ensures states[|states| - 1].caches[0].size == DataLen(short) - DataLen(long) < 0
    ensures Word(states[|states| - 1].caches[0].size) == 0x1_0000_0000_0000_0000 - (DataLen(long) - DataLen(short))
  {
    var s1 := Apply(EMPTY, Open(0));
    var s2 := Apply(s1, MapInsert(0, key, long));
    var s3 := Apply(s2, MapInsert(0, key, short));
    var s4 := Apply(s3, Adjust(1));
    states := [EMPTY, s1, s2, s3, s4];
  }

  // ----- When a counter can pass below zero -----

  datatype Counter = SlotSize(id: CacheId) | TotalSize | SlotCount(id: CacheId) | TotalCount

  function Value(state: State, c: Counter): int {
    match c
    case SlotSize(id) => if id in state.caches then state.caches[id].size else 0
    case TotalSize => state.total
    case SlotCount(id) => if id in state.caches then state.caches[id].count else 0
    case TotalCount => state.totalCount
  }

  /** What an insert in flight will still add to the counter. */
  ghost function OpDue(c: Counter): Op -> int {
    match c
    case SlotSize(id) => SizeDue(id)
    case TotalSize => TotalDue
    case SlotCount(id) => CountDue(id)
    case TotalCount => TotalCountDue
  }

  /** What a drop in flight will still take from the counter. */
  ghost function DropDue(c: Counter): Dropped -> int {
    match c
    case SlotSize(_) => (drop: Dropped) => 0
    case TotalSize => DropSizeDue
    case SlotCount(_) => (drop: Dropped) => 0
    case TotalCount => DropCountDue
  }

  ghost function Lowering(due: Op -> int): Op -> int { (op: Op) => if due(op) < 0 then due(op) else 0 }

  ghost function LoweringDrop(due: Dropped -> int): Dropped -> int {
    (drop: Dropped) => if due(drop) > 0 then -due(drop) else 0
  }

  /** The counter after all pending adjustments that lower it, and none that raise it. */
  ghost function Lowest(state: State, c: Counter): int {
    Value(state, c) + SumOver(state.ops, Lowering(OpDue(c))) + SumOver(state.drops, LoweringDrop(DropDue(c)))
  }

  /** The steps that finish inserts and drops in flight. */
  predicate Finishing(step: Step) { step.Adjust? || step.DropSize? || step.DropCount? }

  ghost predicate NextFinishing(state: State, state': State) {
    exists step :: Finishing(step) && Enabled(state, step) && state' == Apply(state, step)
  }

  /** The inserts and drops in flight go on, in some order, and nothing new starts. */
  ghost predicate FinishingRun(state: State, states: seq<State>) {
    && |states| > 0 && states[0] == state
    && forall i | 0 < i < |states| :: NextFinishing(states[i - 1], states[i])
  }

  lemma {:induction false} SumIsNonPositive<K, V>(m: map<K, V>, f: V -> int)
    requires forall k | k in m :: f(m[k]) <= 0
    ensures SumOver(m, f) <= 0
    decreases |m|
  {
    if m != map[] {
      var k :| k in m;
      SumSplits(m, f, k);
      SumIsNonPositive(m - {k}, f);
    }
  }

  lemma LowestIsLow(state: State, c: Counter)
    ensures Lowest(state, c) <= Value(state, c)
  {
    SumIsNonPositive(state.ops, Lowering(OpDue(c)));
    SumIsNonPositive(state.drops, LoweringDrop(DropDue(c)));
  }

  /** An update of an insert either moves what is due into the counter, or is for another counter. */
  lemma AdjustMoves(state: State, o: OpId, c: Counter)
    requires o in state.ops && OpOk(state.caches, state.ops[o])
    ensures var state' := DoAdjust(state, o);
      var due, due' := OpDue(c)(state.ops[o]), if o in state'.ops then OpDue(c)(state'.ops[o]) else 0;
      || (Value(state', c) == Value(state, c) + due && due' == 0)
      || (Value(state', c) == Value(state, c) && due' == due)
  {
  }

  lemma AdjustLowest(state: State, o: OpId, c: Counter)
    requires o in state.ops && OpOk(state.caches, state.ops[o])
    ensures Lowest(DoAdjust(state, o), c) >= Lowest(state, c)
    ensures OpDue(c)(state.ops[o]) < 0 ==> Lowest(DoAdjust(state, o), c) == Lowest(state, c)
  {
    AdjustMoves(state, o, c);
    RestOwes(state.ops, o, Lowering(OpDue(c)));
    assert DoAdjust(state, o).ops == Rest(state.ops, o) && DoAdjust(state, o).drops == state.drops;
  }

  /** The same for the first half of a drop; the second half ends it. */
  lemma DropMoves(state: State, o: OpId, c: Counter)
    requires o in state.drops
    ensures var drop := state.drops[o];
      var due, due' := DropDue(c)(drop), DropDue(c)(drop.(sizeDone := true));
      && (!drop.sizeDone ==>
            var state' := Apply(state, DropSize(o));
            || (Value(state', c) == Value(state, c) - due && due' == 0)
            || (Value(state', c) == Value(state, c) && due' == due))
      && (drop.sizeDone ==> Value(Apply(state, DropCount(o)), c) == Value(state, c) - due)
  {
    match c
    case SlotSize(_) =>
    case TotalSize =>
    case SlotCount(_) =>
    case TotalCount =>
  }

  lemma DropSizeLowest(state: State, o: OpId, c: Counter)
    requires o in state.drops && !state.drops[o].sizeDone
    ensures Lowest(Apply(state, DropSize(o)), c) >= Lowest(state, c)
    ensures DropDue(c)(state.drops[o]) > 0 ==> Lowest(Apply(state, DropSize(o)), c) == Lowest(state, c)
  {
    var drop := state.drops[o].(sizeDone := true);
    DropMoves(state, o, c);
    SumUpdates(state.drops, LoweringDrop(DropDue(c)), o, drop);
    assert Apply(state, DropSize(o)).drops == state.drops[o := drop];
  }

  lemma DropCountLowest(state: State, o: OpId, c: Counter)
    requires o in state.drops && state.drops[o].sizeDone
    ensures Lowest(Apply(state, DropCount(o)), c) >= Lowest(state, c)
    ensures DropDue(c)(state.drops[o]) > 0 ==> Lowest(Apply(state, DropCount(o)), c) == Lowest(state, c)
  {
    DropMoves(state, o, c);
    SumSplits(state.drops, LoweringDrop(DropDue(c)), o);
  }

  lemma FinishingRaisesLowest(state: State, step: Step, c: Counter)
    requires Inv(state) && Enabled(state, step) && Finishing(step)
    ensures Lowest(Apply(state, step), c) >= Lowest(state, c)
  {
    match step
    case Adjust(o) =>
      assert OpOk(state.caches, state.ops[o]);
      AdjustLowest(state, o, c);
    case DropSize(o) => DropSizeLowest(state, o, c);
    case DropCount(o) => DropCountLowest(state, o, c);
  }

  lemma {:induction false} NeverBelowLowest(state: State, states: seq<State>, i: nat, c: Counter)
    requires Inv(state) && FinishingRun(state, states) && i < |states|
    ensures Inv(states[i]) && Lowest(states[i], c) >= Lowest(state, c)
  {
    if i > 0 {
      NeverBelowLowest(state, states, i - 1, c);
      assert NextFinishing(states[i - 1], states[i]);
      var step :| Finishing(step) && Enabled(states[i - 1], step) && states[i] == Apply(states[i - 1], step);
      FinishingRaisesLowest(states[i - 1], step, c);
      StepKeeps(states[i - 1], step);
    }
  }

  /** How many steps an insert that lowers the counter has left. */
  ghost function OpWork(c: Counter): Op -> int {
    (op: Op) => if OpDue(c)(op) < 0 && op.stage <= 3 then 4 - op.stage else 0
  }

  ghost function DropWork(c: Counter): Dropped -> int {
    (drop: Dropped) => if DropDue(c)(drop) > 0 then (if drop.sizeDone then 1 else 2) else 0
  }

  ghost function Work(state: State, c: Counter): int {
    SumOver(state.ops, OpWork(c)) + SumOver(state.drops, DropWork(c))
  }

  lemma WorkIsNonNegative(state: State, c: Counter)
    ensures Work(state, c) >= 0
  {
    SumIsNonNegative(state.ops, OpWork(c));
    SumIsNonNegative(state.drops, DropWork(c));
  }

  lemma AdjustWorks(state: State, o: OpId, c: Counter)
    requires o in state.ops && OpOk(state.caches, state.ops[o]) && OpDue(c)(state.ops[o]) < 0
    ensures Work(DoAdjust(state, o), c) < Work(state, c)
  {
    RestOwes(state.ops, o, OpWork(c));
    assert DoAdjust(state, o).ops == Rest(state.ops, o) && DoAdjust(state, o).drops == state.drops;
  }

  lemma DropSizeWorks(state: State, o: OpId, c: Counter)
    requires o in state.drops && !state.drops[o].sizeDone && DropDue(c)(state.drops[o]) > 0
    ensures Work(Apply(state, DropSize(o)), c) < Work(state, c)
  {
    SumUpdates(state.drops, DropWork(c), o, state.drops[o].(sizeDone := true));
  }

  lemma DropCountWorks(state: State, o: OpId, c: Counter)
    requires o in state.drops && state.drops[o].sizeDone && DropDue(c)(state.drops[o]) > 0
    ensures Work(Apply(state, DropCount(o)), c) < Work(state, c)
  {
    SumSplits(state.drops, DropWork(c), o);
  }

  lemma NothingLowers(state: State, c: Counter)
    requires forall o | o in state.ops :: OpDue(c)(state.ops[o]) >= 0
    requires forall o | o in state.drops :: DropDue(c)(state.drops[o]) <= 0
    ensures Lowest(state, c) == Value(state, c)
  {
    SumOfZeros(state.ops, Lowering(OpDue(c)));
    SumOfZeros(state.drops, LoweringDrop(DropDue(c)));
  }

  /** While an adjustment that lowers the counter is pending, a step towards it keeps the lowest value. */
  lemma LoweringStep(state: State, c: Counter) returns (step: Step)
    requires Inv(state) && Lowest(state, c) != Value(state, c)
    ensures Finishing(step) && Enabled(state, step) && Lowest(Apply(state, step), c) == Lowest(state, c)
    ensures Work(Apply(state, step), c) < Work(state, c)
  {
    if o :| o in state.ops && OpDue(c)(state.ops[o]) < 0 {
      assert OpOk(state.caches, state.ops[o]);
      step := Adjust(o);
      AdjustLowest(state, o, c);
      AdjustWorks(state, o, c);
    } else if o :| o in state.drops && DropDue(c)(state.drops[o]) > 0 {
      if state.drops[o].sizeDone {
        step := DropCount(o);
        DropCountLowest(state, o, c);
        DropCountWorks(state, o, c);
      } else {
        step := DropSize(o);
        DropSizeLowest(state, o, c);
        DropSizeWorks(state, o, c);
      }
    } else {
      NothingLowers(state, c);
      assert false;
    }
  }

  /** Some order of the steps in flight takes the counter to its lowest value. */
  lemma {:induction false} ReachesLowest(state: State, c: Counter) returns (states: seq<State>)
    requires Inv(state)
    ensures FinishingRun(state, states) && Value(states[|states| - 1], c) == Lowest(state, c)
    decreases Work(state, c)
  {
    WorkIsNonNegative(state, c);
    if Lowest(state, c) == Value(state, c) {
      states := [state];
    } else {
      var step := LoweringStep(state, c);
      var next := Apply(state, step);
      StepKeeps(state, step);
      WorkIsNonNegative(next, c);
      var rest := ReachesLowest(next, c);
      states := [state] + rest;
      assert NextFinishing(state, next);
      forall i | 0 < i < |states| ensures NextFinishing(states[i - 1], states[i]) {
        if i > 1 { assert states[i - 1] == rest[i - 2] && states[i] == rest[i - 1]; }
      }
    }
  }

  /** From a reachable state, some order of the adjustments in flight takes a counter below zero if and only
      if the counter together with all adjustments that lower it is below zero. */
  lemma UnderflowsIff(states: seq<State>, i: nat, c: Counter)
    requires Run(states) && i < |states|
    ensures (exists run :: FinishingRun(states[i], run) && Value(run[|run| - 1], c) < 0)
            <==> Lowest(states[i], c) < 0
  {
    var state := states[i];
    CountersPlusPending(states, i);
    if run :| FinishingRun(state, run) && Value(run[|run| - 1], c) < 0 {
      NeverBelowLowest(state, run, |run| - 1, c);
      LowestIsLow(run[|run| - 1], c);
    }
    var lowest := ReachesLowest(state, c);
    assert Lowest(state, c) < 0 ==> Value(lowest[|lowest| - 1], c) < 0;
  }
}
