/** `AccountsDb::calc_delete_dependencies`: which stores may be deleted when
    zero-lamport keys are purged.

    Candidate keys and slots form a bipartite graph: a key is linked to the
    slots in its slot list.  A store can only go if every key in it goes, and a
    key can only go if every store that holds it goes, so a single obstacle
    keeps its whole connected component. */
module DeleteDependencies {
  import opened Types

  datatype AccountInfo = AccountInfo(isCached: bool, isZeroLamport: bool)

  /** A candidate's rooted slot-list entries and its reference count. */
  datatype CleaningInfo = CleaningInfo(slotList: map<Slot, AccountInfo>, refCount: nat)

  type Candidates = map<Pubkey, CleaningInfo>

  /** The number of alive accounts a store keeps if all candidates go, and the candidates in it. */
  datatype StoreCount = StoreCount(count: nat, keys: set<Pubkey>)

  type StoreCounts = map<Slot, StoreCount>

  /** Candidate `k` has a slot-list entry at slot `s`. */
  predicate HasEntry(candidates: Candidates, k: Pubkey, s: Slot) {
    k in candidates && s in candidates[k].slotList
  }

  /** How the store-count phase of clean builds its table: a store appears with its candidates. */
  ghost predicate Linked(candidates: Candidates, storeCounts: StoreCounts) {
    && (forall s | s in storeCounts :: storeCounts[s].keys != {})
    && (forall s, k | s in storeCounts :: k in storeCounts[s].keys <==> HasEntry(candidates, k, s))
  }

  // ----- Reference definition: connected components -----

  /** Some candidate has entries at both slots. */
  ghost predicate Adjacent(candidates: Candidates, s: Slot, t: Slot) {
    exists k :: k in candidates && s in candidates[k].slotList && t in candidates[k].slotList
  }

  ghost predicate IsWalk(candidates: Candidates, walk: seq<Slot>) {
    && walk != []
    && forall i :: 0 < i < |walk| ==> Adjacent(candidates, walk[i - 1], walk[i])
  }

  /** A reason for which slot `s` alone already has to stay: its store is not being deleted,
      or it keeps an alive account, or one of its candidates is also stored elsewhere. */
  ghost predicate Obstacle(candidates: Candidates, storeCounts: StoreCounts, s: Slot) {
    || s !in storeCounts
    || storeCounts[s].count != 0
    || exists k :: k in candidates && s in candidates[k].slotList
                   && |candidates[k].slotList| != candidates[k].refCount
  }

  /** The connected component of slot `s` contains an obstacle. */
  ghost predicate Kept(candidates: Candidates, storeCounts: StoreCounts, s: Slot) {
    exists walk :: IsWalk(candidates, walk) && walk[0] == s
                   && Obstacle(candidates, storeCounts, walk[|walk| - 1])
  }

  lemma ObstacleIsKept(candidates: Candidates, storeCounts: StoreCounts, s: Slot)
    requires Obstacle(candidates, storeCounts, s)
    ensures Kept(candidates, storeCounts, s)
  {
    assert IsWalk(candidates, [s]);
    assert [s][|[s]| - 1] == s;
  }

  /** Being kept spreads along every key. */
  lemma KeptSpreads(candidates: Candidates, storeCounts: StoreCounts, k: Pubkey, s: Slot, t: Slot)
    requires k in candidates && s in candidates[k].slotList && t in candidates[k].slotList
    requires Kept(candidates, storeCounts, s)
    ensures Kept(candidates, storeCounts, t)
  {
    var walk :| IsWalk(candidates, walk) && walk[0] == s
                && Obstacle(candidates, storeCounts, walk[|walk| - 1]);
    var longer := [t] + walk;
    assert IsWalk(candidates, longer) by {
      forall i | 0 < i < |longer| ensures Adjacent(candidates, longer[i - 1], longer[i]) {
        if i > 1 { assert Adjacent(candidates, walk[i - 2], walk[i - 1]); }
      }
    }
    assert longer[|longer| - 1] == walk[|walk| - 1];
  }

  // ----- The worklist -----

  /** Every candidate in a counted store has all its slots counted or pending. */
  ghost predicate Closed(candidates: Candidates, storeCounts: StoreCounts, counted: set<Slot>, pending: set<Slot>) {
    forall k, s | k in candidates && s in candidates[k].slotList && s in counted && s in storeCounts ::
      candidates[k].slotList.Keys <= counted + pending
  }

  ghost function KeptSlots(candidates: Candidates, storeCounts: StoreCounts): set<Slot> {
    set s | s in AllSlots(candidates) && Kept(candidates, storeCounts, s)
  }

  /** The candidate was found deletable and none of its stores has been given up since. */
  ghost predicate Deletable(candidates: Candidates, storeCounts: StoreCounts, counted: set<Slot>, k: Pubkey)
    requires k in candidates
  {
    && |candidates[k].slotList| == candidates[k].refCount
    && forall s | s in candidates[k].slotList ::
         s in storeCounts && storeCounts[s].count == 0 && s !in counted
  }

  ghost predicate Settled(candidates: Candidates, storeCounts: StoreCounts, counted: set<Slot>, k: Pubkey)
    requires k in candidates
  {
    candidates[k].slotList.Keys <= counted || Deletable(candidates, storeCounts, counted, k)
  }

  /** `remaining` is `storeCounts` without the counted slots. */
  ghost predicate Without(storeCounts: StoreCounts, counted: set<Slot>, remaining: StoreCounts) {
    && remaining.Keys == storeCounts.Keys - counted
    && forall s | s in remaining :: remaining[s] == storeCounts[s]
  }

  /** The slots that some candidate mentions. */
  ghost function AllSlots(candidates: Candidates): set<Slot> {
    set k, s | k in candidates && s in candidates[k].slotList :: s
  }

  /** The slots that one of `keys` has an entry at. */
  function SlotsOf(candidates: Candidates, keys: set<Pubkey>): set<Slot>
    requires keys <= candidates.Keys
  {
    set k, s | k in keys && s in candidates[k].slotList :: s
  }

  /** A set of slots that each candidate has all or none of its slots in. */
  ghost predicate Spreading(candidates: Candidates, kept: set<Slot>) {
    forall k, s | k in candidates && s in candidates[k].slotList && s in kept ::
      candidates[k].slotList.Keys <= kept
  }

  lemma KeptSlotsSpread(candidates: Candidates, storeCounts: StoreCounts)
    ensures Spreading(candidates, KeptSlots(candidates, storeCounts))
  {
    var kept := KeptSlots(candidates, storeCounts);
    forall k, s | k in candidates && s in candidates[k].slotList && s in kept
      ensures candidates[k].slotList.Keys <= kept
    {
      forall t | t in candidates[k].slotList ensures t in kept {
        KeptSpreads(candidates, storeCounts, k, s, t);
      }
    }
  }

  lemma ClosedStep(candidates: Candidates, storeCounts: StoreCounts,
                   counted: set<Slot>, frontier0: set<Slot>, slot: Slot, frontier: set<Slot>)
    requires Linked(candidates, storeCounts)
    requires Closed(candidates, storeCounts, counted, frontier0) && frontier0 <= frontier + {slot}
    requires slot in storeCounts ==>
               SlotsOf(candidates, storeCounts[slot].keys) <= counted + {slot} + frontier
    ensures Closed(candidates, storeCounts, counted + {slot}, frontier)
  {
    forall k, s | k in candidates && s in candidates[k].slotList && s in counted + {slot} && s in storeCounts
      ensures candidates[k].slotList.Keys <= counted + {slot} + frontier
    {
      if s == slot {
        assert k in storeCounts[slot].keys;
        assert candidates[k].slotList.Keys <= SlotsOf(candidates, storeCounts[slot].keys);
      }
    }
  }

  /** One step of the worklist: drop the store at `slot` and look at all slots of its candidates. */
  method GiveUpStore(candidates: Candidates, ghost storeCounts: StoreCounts, ghost kept: set<Slot>,
                     remaining: StoreCounts, counted: set<Slot>, frontier: set<Slot>, slot: Slot)
    returns (remaining': StoreCounts, frontier': set<Slot>)
    requires Linked(candidates, storeCounts) && Spreading(candidates, kept)
    requires Without(storeCounts, counted, remaining)
    requires frontier !! counted && slot in frontier
    requires counted + frontier <= kept
    requires Closed(candidates, storeCounts, counted, frontier)
    ensures Without(storeCounts, counted + {slot}, remaining')
    ensures frontier' !! counted + {slot} && frontier <= frontier' + {slot}
    ensures counted + {slot} + frontier' <= kept
    ensures Closed(candidates, storeCounts, counted + {slot}, frontier')
  {
    remaining', frontier' := remaining, frontier - {slot};
    if slot in remaining {
      var found := SlotsOf(candidates, remaining[slot].keys) - counted - {slot};
      frontier' := frontier' + found;
      remaining' := remaining - {slot};
    }
    ClosedStep(candidates, storeCounts, counted, frontier, slot, frontier');
  }

  /** The inner `while` loop: give up every store reachable from `pending`. */
  method GiveUpStores(candidates: Candidates, ghost storeCounts: StoreCounts, ghost kept: set<Slot>,
                      remaining: StoreCounts, counted: set<Slot>, pending: set<Slot>)
    returns (remaining': StoreCounts, counted': set<Slot>)
    requires Linked(candidates, storeCounts) && Spreading(candidates, kept)
    requires Without(storeCounts, counted, remaining)
    requires pending !! counted
    requires counted + pending <= kept
    requires Closed(candidates, storeCounts, counted, {})
    ensures Without(storeCounts, counted', remaining')
    ensures counted + pending <= counted' <= kept
    ensures Closed(candidates, storeCounts, counted', {})
  {
    remaining', counted' := remaining, counted;
    var frontier := pending;
    while frontier != {}
      invariant Without(storeCounts, counted', remaining')
      invariant frontier !! counted'
      invariant counted + pending <= counted' + frontier <= kept
      invariant Closed(candidates, storeCounts, counted', frontier)
      decreases kept - counted'
    {
      var slot :| slot in frontier;
      remaining', frontier := GiveUpStore(candidates, storeCounts, kept, remaining', counted', frontier, slot);
      counted' := counted' + {slot};
    }
  }

  /** The outer loop: every candidate ends up deletable or with all its stores given up,
      and only stores in `kept` are given up. */
  method SettleCandidates(candidates: Candidates, storeCounts: StoreCounts, ghost kept: set<Slot>)
    returns (remaining: StoreCounts, ghost counted: set<Slot>)
    requires Linked(candidates, storeCounts) && Spreading(candidates, kept)
    requires forall s | s in AllSlots(candidates) && Obstacle(candidates, storeCounts, s) :: s in kept
    ensures Without(storeCounts, counted, remaining) && counted <= kept
    ensures forall k | k in candidates :: Settled(candidates, storeCounts, counted, k)
  {
    remaining := storeCounts;
    var alreadyCounted: set<Slot> := {};
    var todo := candidates.Keys;
    while todo != {}
      invariant todo <= candidates.Keys
      invariant Without(storeCounts, alreadyCounted, remaining) && alreadyCounted <= kept
      invariant Closed(candidates, storeCounts, alreadyCounted, {})
      invariant forall k | k in candidates && k !in todo :: Settled(candidates, storeCounts, alreadyCounted, k)
    {
      var key :| key in todo;
      todo := todo - {key};
      ghost var counted0 := alreadyCounted;
      remaining, alreadyCounted := SettleCandidate(candidates, storeCounts, kept, remaining, alreadyCounted, key);
      SettledStays(candidates, storeCounts, counted0, alreadyCounted, candidates.Keys - todo - {key});
    }
    counted := alreadyCounted;
  }

  /** Test one candidate; when it cannot go, give up its stores and everything connected to them. */
  method SettleCandidate(candidates: Candidates, storeCounts: StoreCounts, ghost kept: set<Slot>,
                         remaining: StoreCounts, counted: set<Slot>, key: Pubkey)
    returns (remaining': StoreCounts, counted': set<Slot>)
    requires Linked(candidates, storeCounts) && Spreading(candidates, kept) && key in candidates
    requires forall s | s in AllSlots(candidates) && Obstacle(candidates, storeCounts, s) :: s in kept
    requires Without(storeCounts, counted, remaining) && counted <= kept
    requires Closed(candidates, storeCounts, counted, {})
    ensures Without(storeCounts, counted', remaining') && counted <= counted' <= kept
    ensures Closed(candidates, storeCounts, counted', {})
    ensures Settled(candidates, storeCounts, counted', key)
  {
    remaining', counted' := remaining, counted;
    var info := candidates[key];
    var delete :=
      && |info.slotList| == info.refCount
      && forall s | s in info.slotList :: s in remaining && remaining[s].count == 0;
    if !delete {
      var pending := info.slotList.Keys - counted;
      FailingCandidateIsKept(candidates, storeCounts, kept, counted, key);
      remaining', counted' := GiveUpStores(candidates, storeCounts, kept, remaining, counted, pending);
    }
  }

  /** Keeps exactly the stores whose connected component has no obstacle, whatever
      order candidates, slots and affected keys are visited in. */
  method CalcDeleteDependencies(candidates: Candidates, storeCounts: StoreCounts)
    returns (remaining: StoreCounts)
    requires Linked(candidates, storeCounts)
    ensures forall s :: s in remaining <==> s in storeCounts && !Kept(candidates, storeCounts, s)
    ensures forall s | s in remaining :: remaining[s] == storeCounts[s]
  {
    ghost var kept := KeptSlots(candidates, storeCounts);
    KeptSlotsSpread(candidates, storeCounts);
    forall s | Obstacle(candidates, storeCounts, s) ensures Kept(candidates, storeCounts, s) {
      ObstacleIsKept(candidates, storeCounts, s);
    }
    ghost var counted;
    remaining, counted := SettleCandidates(candidates, storeCounts, kept);
    forall s | s in storeCounts && s !in counted ensures !Kept(candidates, storeCounts, s) {
      UncountedIsNotKept(candidates, storeCounts, counted, s);
    }
  }

  /** A candidate that fails the test has all its slots kept. */
  lemma FailingCandidateIsKept(candidates: Candidates, storeCounts: StoreCounts, kept: set<Slot>,
                               counted: set<Slot>, k: Pubkey)
    requires k in candidates && Spreading(candidates, kept)
    requires forall s | s in AllSlots(candidates) && Obstacle(candidates, storeCounts, s) :: s in kept
    requires counted <= kept
    requires !Deletable(candidates, storeCounts, counted, k)
    ensures candidates[k].slotList.Keys <= kept
  {
    var slots := candidates[k].slotList.Keys;
    forall s | s in slots ensures s in kept {
      assert s in AllSlots(candidates);
      if |candidates[k].slotList| != candidates[k].refCount {
        assert Obstacle(candidates, storeCounts, s);
      } else {
        var t :| t in slots && !(t in storeCounts && storeCounts[t].count == 0 && t !in counted);
        assert t in AllSlots(candidates);
        assert t in counted || Obstacle(candidates, storeCounts, t);
      }
    }
  }

  lemma SettledStays(candidates: Candidates, storeCounts: StoreCounts,
                     counted: set<Slot>, counted': set<Slot>, keys: set<Pubkey>)
    requires keys <= candidates.Keys && counted <= counted'
    requires Closed(candidates, storeCounts, counted', {})
    requires forall k | k in keys :: Settled(candidates, storeCounts, counted, k)
    ensures forall k | k in keys :: Settled(candidates, storeCounts, counted', k)
  {
  }

  /** Once every candidate is settled, no walk leads from an uncounted store to an obstacle. */
  lemma UncountedIsNotKept(candidates: Candidates, storeCounts: StoreCounts, counted: set<Slot>, s: Slot)
    requires Linked(candidates, storeCounts)
    requires forall k | k in candidates :: Settled(candidates, storeCounts, counted, k)
    requires s in storeCounts && s !in counted
    ensures !Kept(candidates, storeCounts, s)
  {
    SettledIsSealed(candidates, storeCounts, counted);
    forall walk | IsWalk(candidates, walk) && walk[0] == s
      ensures !Obstacle(candidates, storeCounts, walk[|walk| - 1])
    {
      WalkStaysUncounted(candidates, storeCounts, counted, walk, |walk| - 1);
      UncountedIsNoObstacle(candidates, storeCounts, counted, walk[|walk| - 1]);
    }
  }

  lemma UncountedIsNoObstacle(candidates: Candidates, storeCounts: StoreCounts, counted: set<Slot>, s: Slot)
    requires Linked(candidates, storeCounts)
    requires forall k | k in candidates :: Settled(candidates, storeCounts, counted, k)
    requires s in storeCounts && s !in counted
    ensures !Obstacle(candidates, storeCounts, s)
  {
    forall k | k in storeCounts[s].keys
      ensures |candidates[k].slotList| == candidates[k].refCount && storeCounts[s].count == 0
    {
      assert Settled(candidates, storeCounts, counted, k);
    }
    var k :| k in storeCounts[s].keys;
  }

  /** No step leads from an uncounted store to anything but another one. */
  ghost predicate Sealed(candidates: Candidates, storeCounts: StoreCounts, counted: set<Slot>) {
    forall s, t | Adjacent(candidates, s, t) && s in storeCounts && s !in counted :: t in storeCounts && t !in counted
  }

  lemma SettledIsSealed(candidates: Candidates, storeCounts: StoreCounts, counted: set<Slot>)
    requires forall k | k in candidates :: Settled(candidates, storeCounts, counted, k)
    ensures Sealed(candidates, storeCounts, counted)
  {
    forall s, t | Adjacent(candidates, s, t) && s in storeCounts && s !in counted
      ensures t in storeCounts && t !in counted
    {
      var k :| k in candidates && s in candidates[k].slotList && t in candidates[k].slotList;
      assert Settled(candidates, storeCounts, counted, k);
      assert s in candidates[k].slotList.Keys;
    }
  }

  lemma {:induction false} WalkStaysUncounted(candidates: Candidates, storeCounts: StoreCounts,
                                              counted: set<Slot>, walk: seq<Slot>, i: nat)
    requires Sealed(candidates, storeCounts, counted) && IsWalk(candidates, walk) && i < |walk|
    requires walk[0] in storeCounts && walk[0] !in counted
    ensures walk[i] in storeCounts && walk[i] !in counted
  {
    if i > 0 {
      WalkStaysUncounted(candidates, storeCounts, counted, walk, i - 1);
      assert Adjacent(candidates, walk[i - 1], walk[i]);
    }
  }
}
