/** How cache flushes and removals of unrooted slots keep out of each other's way: a shared set of
    slots under contention, guarded by a lock, and a condition variable for removers that wait. */
module Contention {
  import opened Types

  type ThreadId = nat

  datatype Thread =
      /** Has put its slot into the set and flushes it. */
    | Flushing(slot: Slot)
      /** Has taken its slot out of the set and is about to notify. */
    | Notifying
      /** Blocked on the condition variable; the `remaining` slots are not reserved yet. */
    | Waiting(slots: seq<Slot>, remaining: seq<Slot>)
      /** Woken up, and about to try the remaining slots again. */
    | Woken(slots: seq<Slot>, remaining: seq<Slot>)
      /** Has reserved all its slots and purges them. */
    | Purging(slots: seq<Slot>)

  datatype State = State(contended: set<Slot>, threads: map<ThreadId, Thread>)

  // ----- Reserving slots -----

  function Elems(slots: seq<Slot>): set<Slot> { set s | s in slots }

  /** Insert each slot in turn; those that were in the set already remain to be reserved. */
  function Reserve(contended: set<Slot>, slots: seq<Slot>): (r: (set<Slot>, seq<Slot>))
    decreases slots
  {
    if slots == [] then (contended, [])
    else
      var rest := Reserve(contended + {slots[0]}, slots[1..]);
      if slots[0] in contended then (rest.0, [slots[0]] + rest.1) else rest
  }

  lemma {:induction false} ReserveAdds(contended: set<Slot>, slots: seq<Slot>)
    ensures Reserve(contended, slots).0 == contended + Elems(slots)
    ensures forall s | s in Reserve(contended, slots).1 :: s in slots
    ensures forall s | s in contended && s in slots :: s in Reserve(contended, slots).1
    decreases slots
  {
    if slots != [] {
      ReserveAdds(contended + {slots[0]}, slots[1..]);
      assert slots == [slots[0]] + slots[1..];
    }
  }

  /** For a list without repetition exactly the slots of other threads remain. */
  lemma {:induction false} ReserveDistinct(contended: set<Slot>, slots: seq<Slot>)
    requires Distinct(slots)
    ensures forall s :: s in Reserve(contended, slots).1 <==> s in slots && s in contended
    ensures Distinct(Reserve(contended, slots).1)
    decreases slots
  {
    if slots != [] {
      var rest := slots[1..];
      assert slots == [slots[0]] + rest;
      assert slots[0] !in rest;
      ReserveDistinct(contended + {slots[0]}, rest);
    }
  }

  lemma DistinctCons(slots: seq<Slot>)
    requires slots != []
    ensures Distinct(slots) <==> Distinct(slots[1..]) && slots[0] !in slots[1..]
    ensures Elems(slots) == {slots[0]} + Elems(slots[1..])
  {
    var rest := slots[1..];
    assert slots == [slots[0]] + rest;
    if Distinct(rest) && slots[0] !in rest {
      assert forall i | 0 < i < |slots| :: slots[i] == rest[i - 1] && slots[i] != slots[0];
    }
  }

  /** A list is reserved at once exactly when its slots are free and none is repeated. */
  lemma {:induction false} ReservedAtOnceIff(contended: set<Slot>, slots: seq<Slot>)
    ensures Reserve(contended, slots).1 == [] <==> Distinct(slots) && forall s | s in slots :: s !in contended
    decreases slots
  {
    if slots != [] {
      assert slots == [slots[0]] + slots[1..];
      DistinctCons(slots);
      ReservedAtOnceIff(contended + {slots[0]}, slots[1..]);
    }
  }

  // ----- Steps -----

  datatype Step =
    | FlushTry(s: Slot)
    | FlushRelease
    | NotifyAll
    | RemoveStart(slots: seq<Slot>)
    | SpuriousWakeup
    | Recheck
    | RemoveEnd

  predicate IsRemover(thread: Thread) { thread.Waiting? || thread.Woken? || thread.Purging? }

  function SlotsOf(thread: Thread): set<Slot> {
    if IsRemover(thread) then Elems(thread.slots) else {}
  }

  /** Callers never remove the same slot twice, in one call or in calls that overlap. */
  ghost predicate MayRemove(state: State, slots: seq<Slot>) {
    && Distinct(slots)
    && forall u | u in state.threads :: SlotsOf(state.threads[u]) !! Elems(slots)
  }

  ghost predicate Enabled(state: State, t: ThreadId, step: Step) {
    match step
    case FlushTry(s) => t !in state.threads
    case FlushRelease => t in state.threads && state.threads[t].Flushing?
    case NotifyAll => t in state.threads && state.threads[t].Notifying?
    case RemoveStart(slots) => t !in state.threads && MayRemove(state, slots)
    case SpuriousWakeup => t in state.threads && state.threads[t].Waiting?
    case Recheck => t in state.threads && state.threads[t].Woken?
    case RemoveEnd => t in state.threads && state.threads[t].Purging?
  }

  function Awake(thread: Thread): Thread {
    if thread.Waiting? then Woken(thread.slots, thread.remaining) else thread
  }

  /** A remover that has tried to reserve its slots goes on to purge or waits. */
  function AfterReserve(slots: seq<Slot>, remaining: seq<Slot>): Thread {
    if remaining == [] then Purging(slots) else Waiting(slots, remaining)
  }

  ghost function Apply(state: State, t: ThreadId, step: Step): State
    requires Enabled(state, t, step)
  {
    var threads := state.threads;
    match step
    case FlushTry(s) =>
      if s in state.contended then state
      else State(state.contended + {s}, threads[t := Flushing(s)])
    case FlushRelease => State(state.contended - {threads[t].slot}, threads[t := Notifying])
    case NotifyAll =>
      State(state.contended, map u | u in threads && u != t :: Awake(threads[u]))
    case RemoveStart(slots) =>
      var reserved := Reserve(state.contended, slots);
      State(reserved.0, threads[t := AfterReserve(slots, reserved.1)])
    case SpuriousWakeup => State(state.contended, threads[t := Awake(threads[t])])
    case Recheck =>
      var reserved := Reserve(state.contended, threads[t].remaining);
      State(reserved.0, threads[t := AfterReserve(threads[t].slots, reserved.1)])
    case RemoveEnd => State(state.contended - Elems(threads[t].slots), threads - {t})
  }

  // ----- The invariant -----

  /** The slots that a thread holds in the contended set. */
  function Owned(thread: Thread): set<Slot> {
    match thread
    case Flushing(s) => {s}
    case Notifying => {}
    case Waiting(slots, remaining) => Elems(slots) - Elems(remaining)
    case Woken(slots, remaining) => Elems(slots) - Elems(remaining)
    case Purging(slots) => Elems(slots)
  }

  ghost predicate Owns(state: State, t: ThreadId, s: Slot) {
    t in state.threads && s in Owned(state.threads[t])
  }

  ghost predicate ThreadOk(thread: Thread) {
    && (IsRemover(thread) ==> Distinct(thread.slots))
    && (thread.Waiting? || thread.Woken? ==>
          Elems(thread.remaining) <= Elems(thread.slots) && Distinct(thread.remaining))
    && (thread.Waiting? ==> thread.remaining != [])
  }

  /** Every slot that a waiting remover lacks is being flushed, or a notification is still to come. */
  ghost predicate WaitsForFlusher(state: State, t: ThreadId) {
    t in state.threads && state.threads[t].Waiting? ==>
      || (exists u :: u in state.threads && state.threads[u].Notifying?)
      || forall s | s in state.threads[t].remaining :: FlusherOf(state, s)
  }

  ghost predicate FlusherOf(state: State, s: Slot) {
    exists u :: u in state.threads && state.threads[u] == Flushing(s)
  }

  ghost predicate Inv(state: State) {
    && (forall t | t in state.threads :: ThreadOk(state.threads[t]))
    && (forall s :: s in state.contended <==> exists t :: Owns(state, t, s))
    && (forall t, u | t in state.threads && u in state.threads && t != u ::
          && Owned(state.threads[t]) !! Owned(state.threads[u])
          && SlotsOf(state.threads[t]) !! SlotsOf(state.threads[u]))
    && (forall t :: WaitsForFlusher(state, t))
  }

  // ----- Every step keeps the invariant -----

  /** A waiting remover keeps what it waits for when another remover takes a step. */
  lemma OthersWait(state: State, state': State, t: ThreadId, u: ThreadId)
    requires WaitsForFlusher(state, u) && u != t
    requires t in state.threads ==> IsRemover(state.threads[t])
    requires forall v | v != t :: v in state.threads <==> v in state'.threads
    requires forall v | v != t && v in state.threads :: state'.threads[v] == state.threads[v]
    ensures WaitsForFlusher(state', u)
  {
    if u in state'.threads && state'.threads[u].Waiting? {
      if v :| v in state.threads && state.threads[v].Notifying? {
        assert v in state'.threads && state'.threads[v].Notifying?;
      } else {
        forall s | s in state.threads[u].remaining ensures FlusherOf(state', s) {
          assert FlusherOf(state, s);
          var v :| v in state.threads && state.threads[v] == Flushing(s);
          assert v in state'.threads && state'.threads[v] == Flushing(s);
        }
      }
    }
  }

  lemma FlushTryKeeps(state: State, t: ThreadId, s: Slot)
    requires Inv(state) && Enabled(state, t, FlushTry(s))
    ensures Inv(Apply(state, t, FlushTry(s)))
  {
    var state' := Apply(state, t, FlushTry(s));
    if s !in state.contended {
      forall x ensures x in state'.contended <==> exists u :: Owns(state', u, x) {
        if x == s { assert Owns(state', t, x); }
        assert forall u | u != t :: Owns(state', u, x) <==> Owns(state, u, x);
      }
      forall u | u in state.threads ensures s !in Owned(state.threads[u]) {
        assert Owns(state, u, s) <==> s in Owned(state.threads[u]);
      }
      forall u | u != t ensures WaitsForFlusher(state', u) {
        OthersWait(state, state', t, u);
      }
    }
  }

  lemma FlushReleaseKeeps(state: State, t: ThreadId)
    requires Inv(state) && Enabled(state, t, FlushRelease)
    ensures Inv(Apply(state, t, FlushRelease))
  {
    var state' := Apply(state, t, FlushRelease);
    var s := state.threads[t].slot;
    forall x ensures x in state'.contended <==> exists u :: Owns(state', u, x) {
      assert forall u | u != t :: Owns(state', u, x) <==> Owns(state, u, x);
      assert x == s ==> Owns(state, t, s);
    }
    assert t in state'.threads && state'.threads[t].Notifying?;
  }

  lemma AwakeKeeps(thread: Thread)
    requires ThreadOk(thread)
    ensures ThreadOk(Awake(thread)) && !Awake(thread).Waiting?
    ensures Owned(Awake(thread)) == Owned(thread) && SlotsOf(Awake(thread)) == SlotsOf(thread)
  {
  }

  lemma NotifyAllKeeps(state: State, t: ThreadId)
    requires Inv(state) && Enabled(state, t, NotifyAll)
    ensures Inv(Apply(state, t, NotifyAll))
  {
    var state' := Apply(state, t, NotifyAll);
    forall u | u in state'.threads
      ensures u in state.threads && Owned(state'.threads[u]) == Owned(state.threads[u])
      ensures SlotsOf(state'.threads[u]) == SlotsOf(state.threads[u]) && ThreadOk(state'.threads[u])
    {
      assert ThreadOk(state.threads[u]);
      AwakeKeeps(state.threads[u]);
    }
    forall x ensures x in state'.contended <==> exists u :: Owns(state', u, x) {
      assert forall u :: Owns(state', u, x) <==> Owns(state, u, x);
    }
  }

  lemma SpuriousWakeupKeeps(state: State, t: ThreadId)
    requires Inv(state) && Enabled(state, t, SpuriousWakeup)
    ensures Inv(Apply(state, t, SpuriousWakeup))
  {
    var state' := Apply(state, t, SpuriousWakeup);
    assert ThreadOk(state.threads[t]);
    AwakeKeeps(state.threads[t]);
    forall x ensures x in state'.contended <==> exists u :: Owns(state', u, x) {
      assert forall u :: Owns(state', u, x) <==> Owns(state, u, x);
    }
    forall u | u != t ensures WaitsForFlusher(state', u) {
      OthersWait(state, state', t, u);
    }
  }

  /** Remover `t` of `slots` holds all of them except those in `want`. */
  ghost predicate Wants(state: State, t: ThreadId, slots: seq<Slot>, want: seq<Slot>) {
    && Distinct(slots) && Distinct(want) && Elems(want) <= Elems(slots)
    && (forall u | u in state.threads && u != t :: SlotsOf(state.threads[u]) !! Elems(slots))
    && if t in state.threads
       then state.threads[t] == Woken(slots, want)
       else want == slots
  }

  function Reserved(state: State, t: ThreadId, slots: seq<Slot>, want: seq<Slot>): State {
    var reserved := Reserve(state.contended, want);
    State(reserved.0, state.threads[t := AfterReserve(slots, reserved.1)])
  }

  /** After trying, the remover holds what it held and the wanted slots that nobody else holds. */
  lemma ReservedOwns(state: State, t: ThreadId, slots: seq<Slot>, want: seq<Slot>)
    requires Wants(state, t, slots, want)
    ensures var state' := Reserved(state, t, slots, want);
      && state'.contended == state.contended + Elems(want)
      && Owned(state'.threads[t]) == (Elems(slots) - Elems(want)) + (Elems(want) - state.contended)
      && SlotsOf(state'.threads[t]) == Elems(slots) && ThreadOk(state'.threads[t])
      && (state'.threads[t].Waiting? ==>
            forall s | s in state'.threads[t].remaining :: s in want && s in state.contended)
  {
    ReserveAdds(state.contended, want);
    ReserveDistinct(state.contended, want);
    var remaining := Reserve(state.contended, want).1;
    assert remaining == [] ==> Elems(remaining) == {};
  }

  lemma ReserveKeepsOwners(state: State, t: ThreadId, slots: seq<Slot>, want: seq<Slot>)
    requires Inv(state) && Wants(state, t, slots, want)
    ensures var state' := Reserved(state, t, slots, want);
      && (forall s :: s in state'.contended <==> exists u :: Owns(state', u, s))
      && (forall u | u in state.threads && u != t :: Owned(state.threads[u]) !! Owned(state'.threads[t]))
  {
    var state' := Reserved(state, t, slots, want);
    ReservedOwns(state, t, slots, want);
    forall s ensures s in state'.contended <==> exists u :: Owns(state', u, s) {
      assert forall u | u != t :: Owns(state', u, s) <==> Owns(state, u, s);
      assert Owns(state, t, s) ==> Owns(state', t, s);
      assert s in want && s !in state.contended ==> Owns(state', t, s);
    }
    forall u | u in state.threads && u != t ensures Owned(state.threads[u]) !! Owned(state'.threads[t]) {
      forall s | s in Owned(state.threads[u]) ensures s !in Owned(state'.threads[t]) {
        assert Owns(state, u, s);
        assert s in Elems(slots) - Elems(want) ==> t in state.threads && s in Owned(state.threads[t]);
      }
    }
  }

  /** What remains is held by flushers. */
  lemma RemainingIsFlushed(state: State, t: ThreadId, slots: seq<Slot>, want: seq<Slot>, s: Slot)
    requires Inv(state) && Wants(state, t, slots, want) && s in want && s in state.contended
    ensures FlusherOf(Reserved(state, t, slots, want), s)
  {
    var u :| Owns(state, u, s);
    assert u != t;
    assert s in Elems(slots);
    assert state.threads[u] == Flushing(s);
    var state' := Reserved(state, t, slots, want);
    assert u in state'.threads && state'.threads[u] == Flushing(s);
  }

  lemma ReserveKeeps(state: State, t: ThreadId, slots: seq<Slot>, want: seq<Slot>)
    requires Inv(state) && Wants(state, t, slots, want)
    ensures Inv(Reserved(state, t, slots, want))
  {
    var state' := Reserved(state, t, slots, want);
    ReservedOwns(state, t, slots, want);
    ReserveKeepsOwners(state, t, slots, want);
    forall u ensures WaitsForFlusher(state', u) {
      if u != t {
        OthersWait(state, state', t, u);
      } else if state'.threads[t].Waiting? {
        forall s | s in state'.threads[t].remaining ensures FlusherOf(state', s) {
          RemainingIsFlushed(state, t, slots, want, s);
        }
      }
    }
  }

  lemma RemoveEndKeeps(state: State, t: ThreadId)
    requires Inv(state) && Enabled(state, t, RemoveEnd)
    ensures Inv(Apply(state, t, RemoveEnd))
  {
    var state' := Apply(state, t, RemoveEnd);
    forall x ensures x in state'.contended <==> exists u :: Owns(state', u, x) {
      assert forall u | u != t :: Owns(state', u, x) <==> Owns(state, u, x);
      assert x in Elems(state.threads[t].slots) ==> Owns(state, t, x);
    }
    forall u ensures WaitsForFlusher(state', u) {
      if u != t {
        OthersWait(state, state', t, u);
      }
    }
  }

  lemma StepKeeps(state: State, t: ThreadId, step: Step)
    requires Inv(state) && Enabled(state, t, step)
    ensures Inv(Apply(state, t, step))
  {
    match step
    case FlushTry(s) => FlushTryKeeps(state, t, s);
    case FlushRelease => FlushReleaseKeeps(state, t);
    case NotifyAll => NotifyAllKeeps(state, t);
    case RemoveStart(slots) => ReserveKeeps(state, t, slots, slots);
    case SpuriousWakeup => SpuriousWakeupKeeps(state, t);
    case Recheck => ReserveKeeps(state, t, state.threads[t].slots, state.threads[t].remaining);
    case RemoveEnd => RemoveEndKeeps(state, t);
  }

  // ----- Whole runs -----

  ghost predicate Init(state: State) { state == State({}, map[]) }

  ghost predicate Next(state: State, state': State) {
    exists t, step :: Enabled(state, t, step) && state' == Apply(state, t, step)
  }

  ghost predicate Run(states: seq<State>) {
    && |states| > 0 && Init(states[0])
    && forall i | 0 < i < |states| :: Next(states[i - 1], states[i])
  }

  lemma {:induction false} RunKeeps(states: seq<State>, i: nat)
    requires Run(states) && i < |states|
    ensures Inv(states[i])
  {
    if i > 0 {
      RunKeeps(states, i - 1);
      var t, step :| Enabled(states[i - 1], t, step) && states[i] == Apply(states[i - 1], t, step);
      StepKeeps(states[i - 1], t, step);
    }
  }

  /** The contended set is the disjoint union of what flushers and removers hold. */
  lemma ContendedIsOwned(states: seq<State>, i: nat, s: Slot)
    requires Run(states) && i < |states|
    ensures s in states[i].contended <==> exists t :: Owns(states[i], t, s)
    ensures forall t, u | Owns(states[i], t, s) && Owns(states[i], u, s) :: t == u
  {
    RunKeeps(states, i);
  }

  /** A slot is never flushed and purged, or flushed twice, at the same time. */
  lemma NeverFlushedAndPurged(states: seq<State>, i: nat, t: ThreadId, u: ThreadId, s: Slot)
    requires Run(states) && i < |states|
    requires t in states[i].threads && u in states[i].threads && t != u
    requires states[i].threads[t] == Flushing(s)
    ensures states[i].threads[u] != Flushing(s)
    ensures states[i].threads[u].Purging? ==> s !in states[i].threads[u].slots
  {
    RunKeeps(states, i);
    assert Owns(states[i], t, s);
  }

  /** Taking the slots out of the set one by one, each of them must be there. */
  predicate AllRemoved(contended: set<Slot>, slots: seq<Slot>)
    decreases slots
  {
    slots == [] || (slots[0] in contended && AllRemoved(contended - {slots[0]}, slots[1..]))
  }

  lemma {:induction false} AllRemovedIff(contended: set<Slot>, slots: seq<Slot>)
    ensures AllRemoved(contended, slots) <==> Distinct(slots) && Elems(slots) <= contended
    decreases slots
  {
    if slots != [] {
      DistinctCons(slots);
      AllRemovedIff(contended - {slots[0]}, slots[1..]);
    }
  }

  /** The assertions that guard both removals from the set always hold. */
  lemma RemovalsSucceed(states: seq<State>, i: nat, t: ThreadId)
    requires Run(states) && i < |states| && t in states[i].threads
    ensures states[i].threads[t].Flushing? ==> states[i].threads[t].slot in states[i].contended
    ensures states[i].threads[t].Purging? ==> AllRemoved(states[i].contended, states[i].threads[t].slots)
  {
    RunKeeps(states, i);
    var thread := states[i].threads[t];
    forall s | s in Owned(thread) ensures s in states[i].contended {
      assert Owns(states[i], t, s);
    }
    if thread.Purging? {
      AllRemovedIff(states[i].contended, thread.slots);
    }
  }

  /** No wakeup is lost: a waiting remover has a notification to come, or lacks only slots that are
      being flushed, and at least one. */
  lemma WaitingIsJustified(states: seq<State>, i: nat, t: ThreadId)
    requires Run(states) && i < |states| && t in states[i].threads && states[i].threads[t].Waiting?
    ensures states[i].threads[t].remaining != []
    ensures || (exists u :: u in states[i].threads && states[i].threads[u].Notifying?)
            || (forall s | s in states[i].threads[t].remaining :: FlusherOf(states[i], s))
  {
    RunKeeps(states, i);
    assert WaitsForFlusher(states[i], t);
  }

  // ----- Progress -----

  /** The steps that finish work under way: no new thread, no spurious wakeup. */
  predicate Finishing(step: Step) {
    step.FlushRelease? || step.NotifyAll? || step.Recheck? || step.RemoveEnd?
  }

  function FlushersOf(state: State): set<ThreadId> { set t | t in state.threads && state.threads[t].Flushing? }
  function NotifiersOf(state: State): set<ThreadId> { set t | t in state.threads && state.threads[t].Notifying? }
  function WokenOf(state: State): set<ThreadId> { set t | t in state.threads && state.threads[t].Woken? }
  function PurgersOf(state: State): set<ThreadId> { set t | t in state.threads && state.threads[t].Purging? }

  /** The work left before every waiting remover must have been notified. */
  function FlushWork(state: State): nat { 2 * |FlushersOf(state)| + |NotifiersOf(state)| }

  ghost predicate Lower(state: State, state': State) {
    || FlushWork(state') < FlushWork(state)
    || (FlushWork(state') == FlushWork(state) && |WokenOf(state')| < |WokenOf(state)|)
    || (FlushWork(state') == FlushWork(state) && |WokenOf(state')| == |WokenOf(state)|
        && |PurgersOf(state')| < |PurgersOf(state)|)
  }

  lemma FlushReleaseDescends(state: State, t: ThreadId)
    requires Enabled(state, t, FlushRelease)
    ensures Lower(state, Apply(state, t, FlushRelease))
  {
    var state' := Apply(state, t, FlushRelease);
    assert FlushersOf(state') == FlushersOf(state) - {t};
    assert NotifiersOf(state') == NotifiersOf(state) + {t};
  }

  lemma NotifyAllDescends(state: State, t: ThreadId)
    requires Enabled(state, t, NotifyAll)
    ensures Lower(state, Apply(state, t, NotifyAll))
  {
    var state' := Apply(state, t, NotifyAll);
    assert FlushersOf(state') == FlushersOf(state);
    assert NotifiersOf(state') == NotifiersOf(state) - {t};
  }

  lemma RecheckDescends(state: State, t: ThreadId)
    requires Enabled(state, t, Recheck)
    ensures Lower(state, Apply(state, t, Recheck))
  {
    var state' := Apply(state, t, Recheck);
    assert FlushersOf(state') == FlushersOf(state);
    assert NotifiersOf(state') == NotifiersOf(state);
    assert WokenOf(state') == WokenOf(state) - {t};
  }

  lemma RemoveEndDescends(state: State, t: ThreadId)
    requires Enabled(state, t, RemoveEnd)
    ensures Lower(state, Apply(state, t, RemoveEnd))
  {
    var state' := Apply(state, t, RemoveEnd);
    assert FlushersOf(state') == FlushersOf(state);
    assert NotifiersOf(state') == NotifiersOf(state);
    assert WokenOf(state') == WokenOf(state);
    assert PurgersOf(state') == PurgersOf(state) - {t};
  }

  /** Finishing steps cannot go on forever: each lowers (flush work, woken removers, purging removers)
      lexicographically. */
  lemma FinishingDescends(state: State, t: ThreadId, step: Step)
    requires Enabled(state, t, step) && Finishing(step)
    ensures Lower(state, Apply(state, t, step))
  {
    match step
    case FlushRelease => FlushReleaseDescends(state, t);
    case NotifyAll => NotifyAllDescends(state, t);
    case Recheck => RecheckDescends(state, t);
    case RemoveEnd => RemoveEndDescends(state, t);
  }

  lemma WaiterHasFinisher(state: State, t: ThreadId) returns (u: ThreadId, step: Step)
    requires Inv(state) && t in state.threads && state.threads[t].Waiting?
    ensures Finishing(step) && Enabled(state, u, step)
  {
    assert ThreadOk(state.threads[t]);
    assert WaitsForFlusher(state, t);
    if v :| v in state.threads && state.threads[v].Notifying? {
      u, step := v, NotifyAll;
    } else {
      var s := state.threads[t].remaining[0];
      assert FlusherOf(state, s);
      u :| u in state.threads && state.threads[u] == Flushing(s);
      step := FlushRelease;
    }
  }

  /** There is no deadlock: as long as a thread is left, a finishing step is possible, and without
      threads no slot is contended. */
  lemma NoDeadlock(states: seq<State>, i: nat)
    requires Run(states) && i < |states|
    ensures states[i] == State({}, map[]) || exists t, step :: Finishing(step) && Enabled(states[i], t, step)
  {
    var state := states[i];
    RunKeeps(states, i);
    if t :| t in state.threads {
      var u, step := t, FlushRelease;
      match state.threads[t] {
        case Flushing(_) =>
        case Notifying => step := NotifyAll;
        case Waiting(_, _) => u, step := WaiterHasFinisher(state, t);
        case Woken(_, _) => step := Recheck;
        case Purging(_) => step := RemoveEnd;
      }
      assert Finishing(step) && Enabled(state, u, step);
    } else {
      assert state.threads == map[];
      forall s ensures s !in state.contended {
        assert forall t :: !Owns(state, t, s);
      }
    }
  }

  // ----- A removal that names a slot twice -----

  function Count(slots: seq<Slot>, s: Slot): nat { multiset(slots)[s] }

  lemma CountCons(slots: seq<Slot>, s: Slot)
    requires slots != []
    ensures Count(slots, s) == (if slots[0] == s then 1 else 0) + Count(slots[1..], s)
  {
    assert slots == [slots[0]] + slots[1..];
  }

  /** Trying to reserve leaves a contended slot as often as it was, and a free one once less. */
  lemma {:induction false} ReserveCounts(contended: set<Slot>, slots: seq<Slot>, s: Slot)
    ensures Count(Reserve(contended, slots).1, s) ==
      if s in contended || s !in slots then Count(slots, s) else Count(slots, s) - 1
    decreases slots
  {
    if slots != [] {
      CountCons(slots, s);
      ReserveCounts(contended + {slots[0]}, slots[1..], s);
      var rest := Reserve(contended + {slots[0]}, slots[1..]);
      assert slots == [slots[0]] + slots[1..];
      if slots[0] in contended {
        CountCons([slots[0]] + rest.1, s);
        assert ([slots[0]] + rest.1)[1..] == rest.1;
      }
    }
  }

  predicate Alone(state: State, t: ThreadId, s: Slot) {
    forall u | u in state.threads && u != t :: s !in SlotsOf(state.threads[u])
  }

  /** At most one thread flushes `s`, and it has put it into the set. */
  ghost predicate FlushedByOne(state: State, s: Slot) {
    && (forall u, v | u in state.threads && v in state.threads
          && state.threads[u] == Flushing(s) && state.threads[v] == Flushing(s) :: u == v)
    && (FlusherOf(state, s) ==> s in state.contended)
  }

  /** Remover `t` still has to reserve `s` twice, or once when it has itself put `s` into the set. */
  ghost predicate WaitsForItself(state: State, t: ThreadId, s: Slot) {
    && t in state.threads && (state.threads[t].Waiting? || state.threads[t].Woken?)
    && s in state.threads[t].slots && Alone(state, t, s) && FlushedByOne(state, s)
    && (|| Count(state.threads[t].remaining, s) >= 2
        || (Count(state.threads[t].remaining, s) >= 1 && s in state.contended && !FlusherOf(state, s)))
  }

  lemma ReserveStaysStuck(state: State, t: ThreadId, slots: seq<Slot>, want: seq<Slot>, s: Slot)
    requires s in slots && Alone(state, t, s) && FlushedByOne(state, s)
    requires t in state.threads ==> !state.threads[t].Flushing?
    requires Count(want, s) >= 2 || (Count(want, s) >= 1 && s in state.contended && !FlusherOf(state, s))
    ensures WaitsForItself(Reserved(state, t, slots, want), t, s)
  {
    var state' := Reserved(state, t, slots, want);
    ReserveAdds(state.contended, want);
    ReserveCounts(state.contended, want, s);
    assert s in want;
    assert Reserve(state.contended, want).1 != [];
    forall u | u in state'.threads && state'.threads[u] == Flushing(s)
      ensures u in state.threads && state.threads[u] == Flushing(s) {}
  }

  lemma OneFlusher(state: State, s: Slot)
    requires Inv(state)
    ensures FlushedByOne(state, s)
  {
    forall u | u in state.threads && state.threads[u] == Flushing(s) ensures s in Owned(state.threads[u]) {}
    if u :| u in state.threads && state.threads[u] == Flushing(s) {
      assert Owns(state, u, s);
    }
  }

  /** A removal that is started in a reachable state and names a slot twice ends up waiting for itself. */
  lemma RepeatedWaitsForItself(states: seq<State>, i: nat, t: ThreadId, slots: seq<Slot>, s: Slot)
    requires Run(states) && i < |states| && t !in states[i].threads
    requires Count(slots, s) >= 2 && Alone(states[i], t, s)
    ensures WaitsForItself(Reserved(states[i], t, slots, slots), t, s)
  {
    RunKeeps(states, i);
    OneFlusher(states[i], s);
    assert s in slots;
    ReserveStaysStuck(states[i], t, slots, slots, s);
  }

  lemma OthersLeaveStuck(state: State, t: ThreadId, s: Slot, u: ThreadId, step: Step)
    requires WaitsForItself(state, t, s) && Enabled(state, u, step) && u != t
    ensures WaitsForItself(Apply(state, u, step), t, s)
  {
    var state' := Apply(state, u, step);
    match step
    case FlushTry(x) =>
      if x == s && s !in state.contended { assert u in state'.threads && state'.threads[u] == Flushing(s); }
    case FlushRelease =>
      if state.threads[u] == Flushing(s) { assert FlusherOf(state, s); }
    case NotifyAll =>
    case RemoveStart(slots) =>
      assert SlotsOf(state.threads[t]) !! Elems(slots);
      ReserveAdds(state.contended, slots);
    case SpuriousWakeup =>
    case Recheck =>
      ReserveAdds(state.contended, state.threads[u].remaining);
    case RemoveEnd =>
  }

  /** No step of any thread gets such a remover out of its wait. */
  lemma StaysStuck(state: State, t: ThreadId, s: Slot, u: ThreadId, step: Step)
    requires WaitsForItself(state, t, s) && Enabled(state, u, step)
    ensures WaitsForItself(Apply(state, u, step), t, s)
  {
    if u != t {
      OthersLeaveStuck(state, t, s, u, step);
    } else if step.Recheck? {
      ReserveStaysStuck(state, t, state.threads[t].slots, state.threads[t].remaining, s);
    }
  }

  /** Whatever the other threads do, a removal that names a slot twice never starts to purge. */
  lemma {:induction false} RepeatedNeverPurges(states: seq<State>, t: ThreadId, s: Slot, i: nat)
    requires i < |states| && WaitsForItself(states[0], t, s)
    requires forall j | 0 < j < |states| :: Next(states[j - 1], states[j])
    ensures t in states[i].threads && !states[i].threads[t].Purging?
    ensures WaitsForItself(states[i], t, s)
  {
    if i > 0 {
      RepeatedNeverPurges(states, t, s, i - 1);
      var u, step :| Enabled(states[i - 1], u, step) && states[i] == Apply(states[i - 1], u, step);
      StaysStuck(states[i - 1], t, s, u, step);
    }
  }
}
