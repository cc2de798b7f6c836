/** The order in which storages are handed out: small and large ones interleaved at a given ratio, or
    shuffled, and consumed by several threads at once. */
module StorageOrderer {
  import opened Types

  // ----- Selecting from both ends of a range -----

  /** The `nth` value of the range `lo..lo + len`, taken alternately from its start and its end. */
  function Select(lo: nat, len: nat, nth: nat, startRate: nat, endRate: nat): int
    requires startRate + endRate > 0
  {
    var cycle := startRate + endRate;
    var cycleIndex, cycleNum := nth % cycle, nth / cycle;
    var index :=
      if cycleIndex < startRate then cycleNum * startRate + cycleIndex
      else len - (cycleNum * endRate + cycleIndex - startRate) - 1;
    lo + index
  }

  predicate FromStart(nth: nat, startRate: nat, endRate: nat)
    requires startRate + endRate > 0
  {
    nth % (startRate + endRate) < startRate
  }

  /** How many of the first `n` values are taken from the start. */
  function Starts(n: nat, startRate: nat, endRate: nat): nat
    requires startRate + endRate > 0
  {
    if n == 0 then 0
    else Starts(n - 1, startRate, endRate) + if FromStart(n - 1, startRate, endRate) then 1 else 0
  }

  lemma DivModStep(n: nat, cycle: nat)
    requires cycle > 0
    ensures n % cycle + 1 < cycle ==> (n + 1) / cycle == n / cycle && (n + 1) % cycle == n % cycle + 1
    ensures n % cycle + 1 == cycle ==> (n + 1) / cycle == n / cycle + 1 && (n + 1) % cycle == 0
  {
    var q, r := n / cycle, n % cycle;
    assert n == q * cycle + r;
    if r + 1 < cycle {
      DivModUnique(n + 1, cycle, q, r + 1);
    } else {
      assert (q + 1) * cycle == q * cycle + cycle;
      DivModUnique(n + 1, cycle, q + 1, 0);
    }
  }

  lemma DivModUnique(n: nat, cycle: nat, q: nat, r: nat)
    requires cycle > 0 && r < cycle && n == q * cycle + r
    ensures n / cycle == q && n % cycle == r
  {
    var d := n / cycle - q;
    assert n == (n / cycle) * cycle + n % cycle;
    assert d * cycle == r - n % cycle;
    MultipleIsFar(d, cycle);
  }

  lemma MultipleIsFar(d: int, cycle: int)
    requires cycle > 0
    ensures d > 0 ==> d * cycle >= cycle
    ensures d < 0 ==> d * cycle <= 0 - cycle
  {
  }

  function StartsClosed(q: nat, r: nat, startRate: nat): nat { q * startRate + if r < startRate then r else startRate }

  function EndsClosed(q: nat, r: nat, startRate: nat, endRate: nat): nat {
    q * endRate + if r < startRate then 0 else r - startRate
  }

  lemma ClosedStep(q: nat, r: nat, startRate: nat, endRate: nat)
    requires r < startRate + endRate
    ensures var (q', r') := if r + 1 < startRate + endRate then (q, r + 1) else (q + 1, 0);
      && StartsClosed(q', r', startRate) == StartsClosed(q, r, startRate) + (if r < startRate then 1 else 0)
      && EndsClosed(q', r', startRate, endRate)
         == EndsClosed(q, r, startRate, endRate) + (if r < startRate then 0 else 1)
  {
    assert (q + 1) * startRate == q * startRate + startRate;
    assert (q + 1) * endRate == q * endRate + endRate;
  }

  /** The closed form that the selection uses. */
  lemma {:induction false} StartsIs(n: nat, startRate: nat, endRate: nat)
    requires startRate + endRate > 0
    ensures var cycle := startRate + endRate;
      && Starts(n, startRate, endRate) == StartsClosed(n / cycle, n % cycle, startRate)
      && n - Starts(n, startRate, endRate) == EndsClosed(n / cycle, n % cycle, startRate, endRate)
  {
    var cycle := startRate + endRate;
    if n == 0 {
      DivModUnique(0, cycle, 0, 0);
    } else {
      StartsIs(n - 1, startRate, endRate);
      DivModStep(n - 1, cycle);
      ClosedStep((n - 1) / cycle, (n - 1) % cycle, startRate, endRate);
    }
  }

  /** The selection by counting: the next value from the start, or the next one from the end. */
  function Counted(lo: nat, len: nat, nth: nat, startRate: nat, endRate: nat): int
    requires startRate + endRate > 0
  {
    lo + if FromStart(nth, startRate, endRate) then Starts(nth, startRate, endRate)
         else len - 1 - (nth - Starts(nth, startRate, endRate))
  }

  lemma SelectCounts(lo: nat, len: nat, nth: nat, startRate: nat, endRate: nat)
    requires startRate + endRate > 0
    ensures Select(lo, len, nth, startRate, endRate) == Counted(lo, len, nth, startRate, endRate)
  {
    StartsIs(nth, startRate, endRate);
  }

  /** Each round of `startRate + endRate` values takes the next `startRate` ones from the start, going up,
      and then the next `endRate` ones from the end, going down. */
  lemma SelectTakesTurns(lo: nat, len: nat, startRate: nat, endRate: nat, round: nat, i: nat)
    requires i < startRate + endRate
    ensures Select(lo, len, round * (startRate + endRate) + i, startRate, endRate) ==
      if i < startRate then lo + round * startRate + i
      else lo + len - 1 - (round * endRate + i - startRate)
  {
    DivModUnique(round * (startRate + endRate) + i, startRate + endRate, round, i);
  }

  lemma {:induction false} StartsGrows(a: nat, b: nat, startRate: nat, endRate: nat)
    requires startRate + endRate > 0 && a <= b
    ensures Starts(a, startRate, endRate) <= Starts(b, startRate, endRate) <= Starts(a, startRate, endRate) + b - a
    decreases b - a
  {
    if a < b {
      StartsGrows(a, b - 1, startRate, endRate);
    }
  }

  /** Values from the start fill the lower part of the range, values from the end the upper part. */
  lemma CountedInPart(lo: nat, len: nat, nth: nat, startRate: nat, endRate: nat)
    requires startRate + endRate > 0 && nth < len
    ensures var v, border := Counted(lo, len, nth, startRate, endRate), lo + Starts(len, startRate, endRate);
      && border <= lo + len
      && if FromStart(nth, startRate, endRate) then lo <= v < border else border <= v < lo + len
  {
    StartsGrows(0, nth, startRate, endRate);
    StartsGrows(nth + 1, len, startRate, endRate);
  }

  lemma SelectInRange(lo: nat, len: nat, nth: nat, startRate: nat, endRate: nat)
    requires startRate + endRate > 0 && nth < len
    ensures lo <= Select(lo, len, nth, startRate, endRate) < lo + len
  {
    SelectCounts(lo, len, nth, startRate, endRate);
    CountedInPart(lo, len, nth, startRate, endRate);
  }

  lemma SelectIsInjective(lo: nat, len: nat, a: nat, b: nat, startRate: nat, endRate: nat)
    requires startRate + endRate > 0 && a < b < len
    ensures Select(lo, len, a, startRate, endRate) != Select(lo, len, b, startRate, endRate)
  {
    SelectCounts(lo, len, a, startRate, endRate);
    SelectCounts(lo, len, b, startRate, endRate);
    CountedInPart(lo, len, a, startRate, endRate);
    CountedInPart(lo, len, b, startRate, endRate);
    StartsGrows(a + 1, b, startRate, endRate);
  }

  lemma {:induction false} FindStart(v: nat, n: nat, startRate: nat, endRate: nat) returns (a: nat)
    requires startRate + endRate > 0 && v < Starts(n, startRate, endRate)
    ensures a < n && FromStart(a, startRate, endRate) && Starts(a, startRate, endRate) == v
  {
    a := n - 1;
    if v < Starts(n - 1, startRate, endRate) {
      a := FindStart(v, n - 1, startRate, endRate);
    }
  }

  lemma {:induction false} FindEnd(v: nat, n: nat, startRate: nat, endRate: nat) returns (a: nat)
    requires startRate + endRate > 0 && v < n - Starts(n, startRate, endRate)
    ensures a < n && !FromStart(a, startRate, endRate) && a - Starts(a, startRate, endRate) == v
  {
    a := n - 1;
    if v < n - 1 - Starts(n - 1, startRate, endRate) {
      a := FindEnd(v, n - 1, startRate, endRate);
    }
  }

  /** Every value of the range is selected. */
  lemma SelectIsOnto(lo: nat, len: nat, v: nat, startRate: nat, endRate: nat) returns (nth: nat)
    requires startRate + endRate > 0 && lo <= v < lo + len
    ensures nth < len && Select(lo, len, nth, startRate, endRate) == v
  {
    var border := Starts(len, startRate, endRate);
    if v - lo < border {
      nth := FindStart(v - lo, len, startRate, endRate);
    } else {
      StartsGrows(0, len, startRate, endRate);
      nth := FindEnd(len - 1 - (v - lo), len, startRate, endRate);
    }
    SelectCounts(lo, len, nth, startRate, endRate);
  }

  // ----- Orders -----

  datatype Storage = Storage(slot: Slot, capacity: nat)

  /** Every number below `n` occurs exactly once. */
  ghost predicate Permutation(indices: seq<nat>, n: nat) {
    && |indices| == n
    && (forall i | 0 <= i < n :: indices[i] < n)
    && (forall i, j | 0 <= i < j < n :: indices[i] != indices[j])
    && (forall v: nat | v < n :: v in indices)
  }

  ghost predicate ByCapacity(storages: seq<Storage>, indices: seq<nat>) {
    && (forall i | 0 <= i < |indices| :: indices[i] < |storages|)
    && forall i, j | 0 <= i < j < |indices| :: storages[indices[i]].capacity <= storages[indices[j]].capacity
  }

  lemma InsertKeepsPermutation(indices: seq<nat>, n: nat, at: nat)
    requires Permutation(indices, n) && at <= n
    ensures Permutation(indices[..at] + [n] + indices[at..], n + 1)
  {
    var inserted := indices[..at] + [n] + indices[at..];
    forall v: nat | v < n + 1 ensures v in inserted {
      if v == n {
        assert inserted[at] == n;
      } else {
        assert v in indices;
        var i :| 0 <= i < n && indices[i] == v;
        assert inserted[if i < at then i else i + 1] == v;
      }
    }
  }

  lemma InsertKeepsOrder(storages: seq<Storage>, indices: seq<nat>, n: nat, at: nat)
    requires ByCapacity(storages, indices) && n < |storages| && at <= |indices|
    requires forall i | 0 <= i < at :: storages[indices[i]].capacity <= storages[n].capacity
    requires forall i | at <= i < |indices| :: storages[n].capacity <= storages[indices[i]].capacity
    ensures ByCapacity(storages, indices[..at] + [n] + indices[at..])
  {
  }

  /** The place of storage `n` among the smaller ones in the order so far. */
  method FindPlace(storages: seq<Storage>, indices: seq<nat>, n: nat) returns (at: nat)
    requires ByCapacity(storages, indices) && n < |storages|
    ensures at <= |indices|
    ensures forall i | 0 <= i < at :: storages[indices[i]].capacity <= storages[n].capacity
    ensures forall i | at <= i < |indices| :: storages[n].capacity <= storages[indices[i]].capacity
  {
    at := |indices|;
    while at > 0 && storages[indices[at - 1]].capacity > storages[n].capacity
      invariant at <= |indices|
      invariant forall i | at <= i < |indices| :: storages[n].capacity <= storages[indices[i]].capacity
    {
      at := at - 1;
    }
  }

  /** The indices of the storages from the smallest to the largest. */
  method SortByCapacity(storages: seq<Storage>) returns (indices: seq<nat>)
    ensures Permutation(indices, |storages|) && ByCapacity(storages, indices)
  {
    indices := [];
    for n := 0 to |storages|
      invariant Permutation(indices, n) && ByCapacity(storages, indices)
    {
      var at := FindPlace(storages, indices, n);
      InsertKeepsPermutation(indices, n, at);
      InsertKeepsOrder(storages, indices, n, at);
      indices := indices[..at] + [n] + indices[at..];
    }
  }

  lemma ComposeKeepsPermutation(indices: seq<nat>, table: seq<nat>, n: nat, composed: seq<nat>)
    requires Permutation(indices, n) && Permutation(table, n) && |composed| == n
    requires forall i | 0 <= i < n :: composed[i] == table[indices[i]]
    ensures Permutation(composed, n)
  {
    forall i, j | 0 <= i < j < n ensures composed[i] != composed[j] {
      assert indices[i] != indices[j];
    }
    forall v: nat | v < n ensures v in composed {
      assert v in table;
      var a: nat :| a < n && table[a] == v;
      assert a in indices;
      var i :| 0 <= i < n && indices[i] == a;
      assert composed[i] == v;
    }
  }

  /** The selection from `0..n`. */
  function SelectBelow(n: nat, i: nat, startRate: nat, endRate: nat): (v: nat)
    requires startRate + endRate > 0 && i < n
    ensures v == Select(0, n, i, startRate, endRate)
  {
    SelectInRange(0, n, i, startRate, endRate);
    Select(0, n, i, startRate, endRate)
  }

  /** The selection as a table. */
  function Selection(n: nat, startRate: nat, endRate: nat): (table: seq<nat>)
    requires startRate + endRate > 0
    ensures |table| == n && forall i: nat | i < n :: table[i] == SelectBelow(n, i, startRate, endRate)
  {
    seq(n, i requires 0 <= i < n => SelectBelow(n, i, startRate, endRate))
  }

  /** The selection is a permutation of the range. */
  lemma SelectionIsPermutation(n: nat, startRate: nat, endRate: nat)
    requires startRate + endRate > 0
    ensures Permutation(Selection(n, startRate, endRate), n)
  {
    var table := Selection(n, startRate, endRate);
    forall i | 0 <= i < n ensures table[i] < n {
      SelectInRange(0, n, i, startRate, endRate);
    }
    forall i, j | 0 <= i < j < n ensures table[i] != table[j] {
      SelectIsInjective(0, n, i, j, startRate, endRate);
    }
    forall v: nat | v < n ensures v in table {
      var nth := SelectIsOnto(0, n, v, startRate, endRate);
      assert table[nth] == v;
    }
  }

  // ----- The documented order -----

  /** What the documentation promises: position `p` holds a storage as large as the one that the selection
      takes from the list sorted by size. */
  ghost predicate Documented(storages: seq<Storage>, order: seq<nat>, table: seq<nat>, indices: seq<nat>)
    requires Permutation(order, |storages|) && Permutation(table, |storages|) && Permutation(indices, |storages|)
  {
    forall p | 0 <= p < |storages| :: storages[indices[p]].capacity == storages[order[table[p]]].capacity
  }

  /** What the code does: it passes the original indices, in sorted order, through the selection. */
  predicate Composed(order: seq<nat>, table: seq<nat>, indices: seq<nat>) {
    && |order| == |table| == |indices|
    && forall p | 0 <= p < |order| :: order[p] < |table| && indices[p] == table[order[p]]
  }

  /** Every list of `n` storages comes out in the documented order, however ties are sorted. */
  ghost predicate AlwaysDocumented(n: nat, table: seq<nat>)
    requires Permutation(table, n)
  {
    forall storages, order, indices |
      && |storages| == n && Permutation(order, n) && ByCapacity(storages, order)
      && Permutation(indices, n) && Composed(order, table, indices) ::
      Documented(storages, order, table, indices)
  }

  /** The condition a caller can test: at most two storages, nothing taken from the end, or at most one. */
  predicate TakesNoneOutOfTurn(n: nat, startRate: nat, endRate: nat) {
    n <= 2 || endRate == 0 || n <= startRate + 1
  }

  lemma {:induction false} StartsOfPrefix(n: nat, startRate: nat, endRate: nat)
    requires startRate + endRate > 0 && (n <= startRate || endRate == 0)
    ensures Starts(n, startRate, endRate) == n
  {
    if n > 0 {
      StartsOfPrefix(n - 1, startRate, endRate);
      if endRate > 0 {
        DivModUnique(n - 1, startRate + endRate, 0, n - 1);
      }
    }
  }

  /** With at most one value from the end the selection changes nothing. */
  lemma SelectionIsIdentity(n: nat, i: nat, startRate: nat, endRate: nat)
    requires startRate + endRate > 0 && i < n && (endRate == 0 || n <= startRate + 1)
    ensures Select(0, n, i, startRate, endRate) == i
  {
    SelectCounts(0, n, i, startRate, endRate);
    StartsOfPrefix(i, startRate, endRate);
    if endRate > 0 {
      DivModUnique(i, startRate + endRate, 0, i);
    }
  }

  /** The first value taken from the end is the last of the range. */
  lemma FirstFromEnd(n: nat, startRate: nat, endRate: nat)
    requires endRate > 0 && startRate < n
    ensures Select(0, n, startRate, startRate, endRate) == n - 1
  {
    SelectCounts(0, n, startRate, startRate, endRate);
    StartsOfPrefix(startRate, startRate, endRate);
    DivModUnique(startRate, startRate + endRate, 0, startRate);
  }

  ghost predicate Identity(table: seq<nat>) { forall i | 0 <= i < |table| :: table[i] == i }

  lemma SelectionInTurn(n: nat, startRate: nat, endRate: nat)
    requires startRate + endRate > 0 && (endRate == 0 || n <= startRate + 1)
    ensures Identity(Selection(n, startRate, endRate))
  {
    forall i: nat | i < n ensures SelectBelow(n, i, startRate, endRate) == i {
      SelectionIsIdentity(n, i, startRate, endRate);
    }
  }

  lemma Commutes(n: nat, order: seq<nat>, table: seq<nat>, p: nat)
    requires Permutation(order, n) && Permutation(table, n) && p < n && (n <= 2 || Identity(table))
    ensures table[order[p]] == order[table[p]]
  {
    if n == 2 {
      assert order == [order[0], order[1]] && table == [table[0], table[1]];
    }
  }

  lemma DocumentedWhenInTurn(n: nat, table: seq<nat>)
    requires Permutation(table, n) && (n <= 2 || Identity(table))
    ensures AlwaysDocumented(n, table)
  {
    forall storages, order, indices |
      && |storages| == n && Permutation(order, n) && ByCapacity(storages, order)
      && Permutation(indices, n) && Composed(order, table, indices)
      ensures Documented(storages, order, table, indices)
    {
      forall p: nat | p < n ensures indices[p] == order[table[p]] {
        Commutes(n, order, table, p);
      }
    }
  }

  // ----- When it fails -----

  /** The list `0..n` with two of its values swapped. */
  ghost function Swapped(n: nat, y: nat, z: nat): (s: seq<nat>)
    requires y < n && z < n
    ensures |s| == n && forall i | 0 <= i < n :: s[i] == if i == y then z else if i == z then y else i
  {
    seq(n, i requires 0 <= i < n => if i == y then z else if i == z then y else i)
  }

  lemma SwappedIsPermutation(n: nat, y: nat, z: nat)
    requires y < n && z < n
    ensures Permutation(Swapped(n, y, z), n)
  {
    var s := Swapped(n, y, z);
    forall v: nat | v < n ensures v in s {
      assert s[s[v]] == v;
    }
  }

  /** Sizes for which the sorted order swaps `y` and `z`. */
  ghost function SwappedSizes(n: nat, y: nat, z: nat): (storages: seq<Storage>)
    requires y < n && z < n
    ensures |storages| == n && forall i | 0 <= i < n :: storages[i].capacity == Swapped(n, y, z)[i]
  {
    seq(n, i requires 0 <= i < n => Storage(0, Swapped(n, y, z)[i]))
  }

  lemma SwappedIsSorted(n: nat, y: nat, z: nat)
    requires y < n && z < n
    ensures ByCapacity(SwappedSizes(n, y, z), Swapped(n, y, z))
  {
    var order, storages := Swapped(n, y, z), SwappedSizes(n, y, z);
    forall i | 0 <= i < n ensures order[i] < n && storages[order[i]].capacity == i {}
  }

  lemma OneCounterexample(n: nat, table: seq<nat>, storages: seq<Storage>, order: seq<nat>, indices: seq<nat>, x: nat)
    requires Permutation(table, n) && Permutation(order, n) && Permutation(indices, n) && x < n
    requires |storages| == n && ByCapacity(storages, order) && Composed(order, table, indices)
    requires storages[indices[x]].capacity != storages[order[table[x]]].capacity
    ensures !AlwaysDocumented(n, table)
  {
    assert !Documented(storages, order, table, indices);
  }

  /** A table that moves `x` to `y` does not commute with a swap of `y` and a third index. */
  lemma NotDocumented(n: nat, table: seq<nat>, x: nat, y: nat, z: nat)
    requires Permutation(table, n) && x < n && y < n && z < n && x != y && z != x && z != y && table[x] == y
    ensures !AlwaysDocumented(n, table)
  {
    var order := Swapped(n, y, z);
    SwappedIsPermutation(n, y, z);
    SwappedIsSorted(n, y, z);
    var indices := seq(n, p requires 0 <= p < n => table[order[p]]);
    ComposeKeepsPermutation(order, table, n, indices);
    assert indices[x] == y && order[table[x]] == z;
    OneCounterexample(n, table, SwappedSizes(n, y, z), order, indices, x);
  }

  /** The documented order is what every list of `n` storages gets if and only if no more than one value
      is taken from the end, or there are at most two storages. */
  lemma DocumentedIff(n: nat, startRate: nat, endRate: nat)
    requires startRate + endRate > 0
    ensures Permutation(Selection(n, startRate, endRate), n)
    ensures AlwaysDocumented(n, Selection(n, startRate, endRate)) <==> TakesNoneOutOfTurn(n, startRate, endRate)
  {
    SelectionIsPermutation(n, startRate, endRate);
    if TakesNoneOutOfTurn(n, startRate, endRate) {
      if n > 2 {
        SelectionInTurn(n, startRate, endRate);
      }
      DocumentedWhenInTurn(n, Selection(n, startRate, endRate));
    } else {
      FirstFromEnd(n, startRate, endRate);
      NotDocumented(n, Selection(n, startRate, endRate), startRate, n - 1, if startRate == 0 then 1 else 0);
    }
  }

  lemma RatioOutcome(storages: seq<Storage>, order: seq<nat>, indices: seq<nat>, startRate: nat, endRate: nat)
    requires startRate + endRate > 0 && Permutation(order, |storages|) && ByCapacity(storages, order)
    requires Composed(order, Selection(|storages|, startRate, endRate), indices)
    ensures Permutation(indices, |storages|) && Permutation(Selection(|storages|, startRate, endRate), |storages|)
    ensures TakesNoneOutOfTurn(|storages|, startRate, endRate) ==>
      Documented(storages, order, Selection(|storages|, startRate, endRate), indices)
  {
    var n := |storages|;
    DocumentedIff(n, startRate, endRate);
    ComposeKeepsPermutation(order, Selection(n, startRate, endRate), n, indices);
  }

  /** Interleave storages by size: each index of the sorted order is passed through the selection.  The
      result is in the documented order if nothing is taken out of turn. */
  method WithSmallToLargeRatio(storages: seq<Storage>, startRate: nat, endRate: nat)
    returns (indices: seq<nat>, ghost order: seq<nat>)
    requires startRate + endRate > 0
    ensures Permutation(order, |storages|) && ByCapacity(storages, order)
    ensures Permutation(indices, |storages|) && Permutation(Selection(|storages|, startRate, endRate), |storages|)
    ensures Composed(order, Selection(|storages|, startRate, endRate), indices)
    ensures TakesNoneOutOfTurn(|storages|, startRate, endRate) ==>
      Documented(storages, order, Selection(|storages|, startRate, endRate), indices)
  {
    var n := |storages|;
    var sorted := SortByCapacity(storages);
    order := sorted;
    indices := [];
    for i := 0 to n
      invariant |indices| == i
      invariant forall j | 0 <= j < i :: indices[j] == SelectBelow(n, sorted[j], startRate, endRate)
    {
      indices := indices + [SelectBelow(n, sorted[i], startRate, endRate)];
    }
    RatioOutcome(storages, order, indices, startRate, endRate);
  }

  const SMALL_TO_LARGE: (nat, nat) := (4, 1)

  const SIX_STORAGES: seq<Storage> :=
    [Storage(0, 60), Storage(0, 20), Storage(0, 30), Storage(0, 40), Storage(0, 50), Storage(0, 10)]

  /** At the ratio that snapshot archives use, six storages are enough: the fifth smallest comes first
      instead of the smallest. */
  lemma ArchiveRatioFails(indices: seq<nat>, order: seq<nat>)
    requires Permutation(order, 6) && ByCapacity(SIX_STORAGES, order) && Permutation(indices, 6)
    requires Composed(order, Selection(6, SMALL_TO_LARGE.0, SMALL_TO_LARGE.1), indices)
    ensures SIX_STORAGES[order[0]].capacity == 10 && SIX_STORAGES[indices[0]].capacity == 50
    ensures var table := Selection(6, SMALL_TO_LARGE.0, SMALL_TO_LARGE.1);
      Permutation(table, 6) && !Documented(SIX_STORAGES, order, table, indices)
  {
    SelectionIsPermutation(6, 4, 1);
    assert (5 as nat) in order;
    var p: nat :| p < 6 && order[p] == 5;
    assert order[0] == 5;
    assert Select(0, 6, 5, 4, 1) == 4 && Select(0, 6, 0, 4, 1) == 0;
  }

  // ----- Concurrent consumption -----

  datatype NextItem = NextItem(position: nat, originalIndex: nat, storage: Storage)

  /** The items that the first `count` calls of `Next` return, in the order in which the calls advance
      the shared position. */
  function Items(storages: seq<Storage>, indices: seq<nat>, count: nat): seq<NextItem>
    requires forall i | 0 <= i < |indices| :: indices[i] < |storages|
  {
    var n := if count <= |indices| then count else |indices|;
    seq(n, i requires 0 <= i < n => NextItem(i, indices[i], storages[indices[i]]))
  }

  class ConcurrentConsumer {
    const storages: seq<Storage>
    const indices: seq<nat>
    var currentPosition: nat
    /** What was handed out so far, to whichever thread. */
    ghost var yielded: seq<NextItem>

    ghost predicate Valid()
      reads this
    {
      Permutation(indices, |storages|) && yielded == Items(storages, indices, currentPosition)
    }

    constructor (s: seq<Storage>, order: seq<nat>)
      requires Permutation(order, |s|)
      ensures Valid() && storages == s && indices == order && currentPosition == 0
    {
      storages, indices, currentPosition, yielded := s, order, 0, [];
    }

    /** Advance the shared position, which is one atomic step, and return the item at the old one. */
    method Next() returns (item: Option<NextItem>)
      requires Valid()
      modifies this
      ensures Valid() && currentPosition == old(currentPosition) + 1
      ensures item.Some? <==> old(currentPosition) < |storages|
      ensures item.Some? ==> item.value.position == |old(yielded)|
      ensures yielded == old(yielded) + if item.Some? then [item.value] else []
    {
      var position := currentPosition;
      currentPosition := currentPosition + 1;
      if position < |indices| {
        item := Some(NextItem(position, indices[position], storages[indices[position]]));
        yielded := yielded + [item.value];
      } else {
        item := None;
      }
    }
  }

  /** No storage is handed out twice, and once the consumer is exhausted each has been handed out. */
  lemma EachExactlyOnce(consumer: ConcurrentConsumer, index: nat)
    requires consumer.Valid() && index < |consumer.storages|
    ensures forall i, j | 0 <= i < j < |consumer.yielded| ::
      !(consumer.yielded[i].originalIndex == index && consumer.yielded[j].originalIndex == index)
    ensures forall i | 0 <= i < |consumer.yielded| && consumer.yielded[i].originalIndex == index ::
      consumer.yielded[i].storage == consumer.storages[index]
    ensures consumer.currentPosition >= |consumer.storages| ==>
      exists i | 0 <= i < |consumer.yielded| :: consumer.yielded[i].originalIndex == index
  {
    if consumer.currentPosition >= |consumer.storages| {
      assert index in consumer.indices;
      var i :| 0 <= i < |consumer.indices| && consumer.indices[i] == index;
      assert consumer.yielded[i].originalIndex == index;
    }
  }

  // ----- Several threads -----

  ghost predicate SomeoneHasPosition(taken: seq<seq<NextItem>>, n: nat) {
    exists t, i :: Taken(taken, t, i) && taken[t][i].position == n
  }

  ghost predicate SomeoneHasStorage(taken: seq<seq<NextItem>>, index: nat) {
    exists t, i :: Taken(taken, t, i) && taken[t][i].originalIndex == index
  }

  predicate Taken(taken: seq<seq<NextItem>>, t: int, i: int) { 0 <= t < |taken| && 0 <= i < |taken[t]| }

  /** The threads together hold exactly the items handed out, each once. */
  ghost predicate Dealt(yielded: seq<NextItem>, taken: seq<seq<NextItem>>) {
    && (forall t, i | Taken(taken, t, i) ::
          taken[t][i].position < |yielded| && yielded[taken[t][i].position] == taken[t][i])
    && (forall n: nat | n < |yielded| :: SomeoneHasPosition(taken, n))
    && (forall t, i, u, j | Taken(taken, t, i) && Taken(taken, u, j) && taken[t][i].position == taken[u][j].position ::
          t == u && i == j)
  }

  lemma DealOne(yielded: seq<NextItem>, taken: seq<seq<NextItem>>, thread: nat, item: NextItem)
    requires Dealt(yielded, taken) && thread < |taken| && item.position == |yielded|
    ensures Dealt(yielded + [item], taken[thread := taken[thread] + [item]])
  {
    var now := taken[thread := taken[thread] + [item]];
    var last := |taken[thread]|;
    assert Taken(now, thread, last) && now[thread][last] == item;
    forall t, i | Taken(taken, t, i) ensures Taken(now, t, i) && now[t][i] == taken[t][i] {}
    forall t, i | Taken(now, t, i)
      ensures (t == thread && i == last) || (Taken(taken, t, i) && now[t][i] == taken[t][i]) {}
    forall n: nat | n < |yielded| + 1 ensures SomeoneHasPosition(now, n) {
      if n < |yielded| {
        assert SomeoneHasPosition(taken, n);
        var t, i :| Taken(taken, t, i) && taken[t][i].position == n;
        assert Taken(now, t, i) && now[t][i].position == n;
      }
    }
  }

  /** The threads together hold each storage exactly once. */
  ghost predicate SharedOut(storages: seq<Storage>, taken: seq<seq<NextItem>>) {
    && (forall t, i | Taken(taken, t, i) ::
          taken[t][i].originalIndex < |storages| && taken[t][i].storage == storages[taken[t][i].originalIndex])
    && (forall index: nat | index < |storages| :: SomeoneHasStorage(taken, index))
    && (forall t, i, u, j | Taken(taken, t, i) && Taken(taken, u, j)
                            && taken[t][i].originalIndex == taken[u][j].originalIndex ::
          t == u && i == j)
  }

  lemma DealtIsSharedOut(storages: seq<Storage>, indices: seq<nat>, taken: seq<seq<NextItem>>)
    requires Permutation(indices, |storages|) && Dealt(Items(storages, indices, |indices|), taken)
    ensures SharedOut(storages, taken)
  {
    forall index: nat | index < |storages| ensures SomeoneHasStorage(taken, index) {
      assert index in indices;
      var n :| 0 <= n < |indices| && indices[n] == index;
      assert SomeoneHasPosition(taken, n);
      var t, i :| Taken(taken, t, i) && taken[t][i].position == n;
      assert taken[t][i].originalIndex == index;
    }
  }

  function Ids(n: nat): (ids: set<nat>)
    ensures forall t: nat :: t in ids <==> t < n
  {
    if n == 0 then {} else Ids(n - 1) + {n - 1}
  }

  /** Any interleaving of threads, each calling `Next` until it gets nothing: together they receive each
      storage exactly once. */
  method ConsumeAll(consumer: ConcurrentConsumer, threads: nat) returns (taken: seq<seq<NextItem>>)
    requires consumer.Valid() && consumer.currentPosition == 0 && threads > 0
    modifies consumer
    ensures |taken| == threads && SharedOut(consumer.storages, taken)
  {
    taken := seq(threads, _ => []);
    var n := |consumer.storages|;
    var running: set<nat> := Ids(threads);
    assert 0 in running;
    while running != {}
      invariant consumer.Valid() && |taken| == threads && Dealt(consumer.yielded, taken)
      invariant forall t: nat | t in running :: t < threads
      invariant consumer.currentPosition >= n || running != {}
      decreases |running|, if consumer.currentPosition < n then n - consumer.currentPosition else 0
    {
      var t :| t in running;
      ghost var yielded := consumer.yielded;
      var item := consumer.Next();
      match item
      case None => running := running - {t};
      case Some(next) =>
        DealOne(yielded, taken, t, next);
        taken := taken[t := taken[t] + [next]];
    }
    assert consumer.yielded == Items(consumer.storages, consumer.indices, n);
    DealtIsSharedOut(consumer.storages, consumer.indices, taken);
  }
}
