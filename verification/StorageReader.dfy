/** Reading a storage for an archive while skipping the accounts that are obsolete. */
module StorageReader {
  import opened Types

  newtype Byte = b: int | 0 <= b < 256

  datatype ObsoleteAccount = ObsoleteAccount(offset: nat, dataLen: nat, slot: Slot)

  datatype Range = Range(start: nat, size: nat)

  const STORE_META_OVERHEAD: nat := 136

  /** The space that an account takes in a file, a multiple of eight bytes. */
  function StoredSize(dataLen: nat): (size: nat)
    ensures size % 8 == 0 && STORE_META_OVERHEAD + dataLen <= size < STORE_META_OVERHEAD + dataLen + 8
  {
    (STORE_META_OVERHEAD + dataLen + 7) / 8 * 8
  }

  // ----- What is to be read -----

  predicate Inside(r: Range, pos: nat) { r.start <= pos < r.start + r.size }

  predicate Covered(ranges: seq<Range>, pos: nat) { exists i | 0 <= i < |ranges| :: Inside(ranges[i], pos) }

  /** The bytes from `pos` on that no range covers, in order. */
  function Kept(file: seq<Byte>, ranges: seq<Range>, pos: nat): seq<Byte>
    decreases |file| - pos
  {
    if pos >= |file| then []
    else (if Covered(ranges, pos) then [] else [file[pos]]) + Kept(file, ranges, pos + 1)
  }

  /** The two ranges share no byte of the file. */
  ghost predicate Apart(a: Range, b: Range, len: nat) {
    forall pos: nat | pos < len :: !(Inside(a, pos) && Inside(b, pos))
  }

  ghost predicate Disjoint(ranges: seq<Range>, len: nat) {
    forall i, j | 0 <= i < j < |ranges| :: Apart(ranges[i], ranges[j], len)
  }

  /** Every range starts in the file, or at its end. */
  predicate StartsWithin(ranges: seq<Range>, len: nat) {
    forall i | 0 <= i < |ranges| :: ranges[i].start <= len
  }

  predicate NonEmpty(ranges: seq<Range>) {
    forall i | 0 <= i < |ranges| :: ranges[i].size > 0
  }

  lemma {:induction false} KeptSkips(file: seq<Byte>, ranges: seq<Range>, pos: nat, end: nat)
    requires pos <= end <= |file| && forall p | pos <= p < end :: Covered(ranges, p)
    ensures Kept(file, ranges, pos) == Kept(file, ranges, end)
    decreases end - pos
  {
    if pos < end {
      KeptSkips(file, ranges, pos + 1, end);
    }
  }

  lemma {:induction false} KeptCopies(file: seq<Byte>, ranges: seq<Range>, pos: nat, end: nat)
    requires pos <= end <= |file| && forall p | pos <= p < end :: !Covered(ranges, p)
    ensures Kept(file, ranges, pos) == file[pos..end] + Kept(file, ranges, end)
    decreases end - pos
  {
    var rest := Kept(file, ranges, end);
    if pos == end {
      assert file[pos..end] + rest == rest;
    } else {
      KeptCopies(file, ranges, pos + 1, end);
      SplitFirst(file, pos, end, rest);
    }
  }

  lemma SplitFirst(file: seq<Byte>, pos: nat, end: nat, rest: seq<Byte>)
    requires pos < end <= |file|
    ensures file[pos..end] + rest == [file[pos]] + (file[pos + 1..end] + rest)
  {
  }

  // ----- How much is to be read -----

  ghost function Uncovered(len: nat, ranges: seq<Range>, pos: nat): set<nat> {
    set p | pos <= p < len && !Covered(ranges, p)
  }

  lemma {:induction false} KeptCounts(file: seq<Byte>, ranges: seq<Range>, pos: nat)
    ensures |Kept(file, ranges, pos)| == |Uncovered(|file|, ranges, pos)|
    decreases |file| - pos
  {
    if pos < |file| {
      KeptCounts(file, ranges, pos + 1);
      if Covered(ranges, pos) {
        assert Uncovered(|file|, ranges, pos) == Uncovered(|file|, ranges, pos + 1);
      } else {
        assert Uncovered(|file|, ranges, pos) == Uncovered(|file|, ranges, pos + 1) + {pos};
      }
    } else {
      assert Uncovered(|file|, ranges, pos) == {};
    }
  }

  ghost function Interval(lo: nat, hi: nat): (s: set<nat>)
    requires lo <= hi
    ensures |s| == hi - lo && forall p :: p in s <==> lo <= p < hi
    decreases hi - lo
  {
    if lo == hi then {} else Interval(lo + 1, hi) + {lo}
  }

  /** The bytes of the range that the file has. */
  function Clipped(r: Range, len: nat): nat
    requires r.start <= len
  {
    if r.size <= len - r.start then r.size else len - r.start
  }

  function ClippedBytes(ranges: seq<Range>, len: nat): nat
    requires StartsWithin(ranges, len)
  {
    if ranges == [] then 0
    else ClippedBytes(ranges[..|ranges| - 1], len) + Clipped(ranges[|ranges| - 1], len)
  }

  lemma CoveredWithoutLast(ranges: seq<Range>, pos: nat)
    requires ranges != []
    ensures Covered(ranges, pos) <==> Covered(ranges[..|ranges| - 1], pos) || Inside(ranges[|ranges| - 1], pos)
  {
    var n := |ranges| - 1;
    if i :| 0 <= i < n && Inside(ranges[..n][i], pos) {
      assert Inside(ranges[i], pos);
    }
    if i :| 0 <= i < |ranges| && Inside(ranges[i], pos) {
      assert i == n || Inside(ranges[..n][i], pos);
    }
  }

  /** The last range takes from what is uncovered at most its clipped size, and all of it exactly when it
      is apart from the others. */
  lemma LastRangeTakes(len: nat, ranges: seq<Range>)
    requires ranges != [] && ranges[|ranges| - 1].start <= len
    ensures var n := |ranges| - 1;
      var before, after := |Uncovered(len, ranges[..n], 0)|, |Uncovered(len, ranges, 0)|;
      && before <= after + Clipped(ranges[n], len)
      && (before == after + Clipped(ranges[n], len) <==> forall i | 0 <= i < n :: Apart(ranges[i], ranges[n], len))
  {
    var n := |ranges| - 1;
    var front, r := ranges[..n], ranges[n];
    var own := Interval(r.start, r.start + Clipped(r, len));
    var open := Uncovered(len, front, 0);
    var taken := own * open;
    forall p: nat ensures p in open <==> p in Uncovered(len, ranges, 0) || p in taken {
      CoveredWithoutLast(ranges, p);
    }
    forall p: nat | p in taken ensures p !in Uncovered(len, ranges, 0) {
      CoveredWithoutLast(ranges, p);
    }
    assert open == Uncovered(len, ranges, 0) + taken;
    SubsetCounts(taken, own);
    ApartIffOpen(len, ranges, own, open);
  }

  lemma SubsetCounts(a: set<nat>, b: set<nat>)
    requires a <= b
    ensures |a| <= |b| && (|a| == |b| <==> a == b)
  {
    assert b == a + (b - a);
    assert |b| == |a| + |b - a|;
    if a != b {
      var x :| x in b && x !in a;
      assert x in b - a;
    }
  }

  lemma ApartIffOpen(len: nat, ranges: seq<Range>, own: set<nat>, open: set<nat>)
    requires ranges != [] && ranges[|ranges| - 1].start <= len && open == Uncovered(len, ranges[..|ranges| - 1], 0)
    requires forall p: nat :: p in own <==> p < len && Inside(ranges[|ranges| - 1], p)
    ensures own * open == own <==> forall i | 0 <= i < |ranges| - 1 :: Apart(ranges[i], ranges[|ranges| - 1], len)
  {
    var n := |ranges| - 1;
    var front, r := ranges[..n], ranges[n];
    if own * open == own {
      forall i, p: nat | 0 <= i < n && p < len ensures !(Inside(ranges[i], p) && Inside(r, p)) {
        assert p in own ==> p in open && !Covered(front, p);
        assert Inside(ranges[i], p) ==> Inside(front[i], p);
      }
    }
    if forall i | 0 <= i < n :: Apart(ranges[i], r, len) {
      forall p: nat | p in own ensures p in open {
        forall i | 0 <= i < n ensures !Inside(front[i], p) {
          assert Apart(ranges[i], r, len) && front[i] == ranges[i];
        }
      }
    }
  }

  lemma {:induction false} UncoveredCounts(len: nat, ranges: seq<Range>)
    requires StartsWithin(ranges, len)
    ensures ClippedBytes(ranges, len) + |Uncovered(len, ranges, 0)| >= len
    ensures ClippedBytes(ranges, len) + |Uncovered(len, ranges, 0)| == len <==> Disjoint(ranges, len)
  {
    if ranges == [] {
      assert Uncovered(len, ranges, 0) == Interval(0, len);
    } else {
      var n := |ranges| - 1;
      UncoveredCounts(len, ranges[..n]);
      LastRangeTakes(len, ranges);
      DisjointWithLast(ranges, len);
    }
  }

  lemma DisjointWithLast(ranges: seq<Range>, len: nat)
    requires ranges != []
    ensures var n := |ranges| - 1;
      Disjoint(ranges, len) <==>
        Disjoint(ranges[..n], len) && forall i | 0 <= i < n :: Apart(ranges[i], ranges[n], len)
  {
    var n := |ranges| - 1;
    if Disjoint(ranges[..n], len) && forall i | 0 <= i < n :: Apart(ranges[i], ranges[n], len) {
      forall i, j | 0 <= i < j < |ranges| ensures Apart(ranges[i], ranges[j], len) {
        assert j < n ==> ranges[..n][i] == ranges[i] && ranges[..n][j] == ranges[j];
      }
    }
  }

  /** The length computed from the ranges is the number of bytes kept if and only if the ranges share no
      byte of the file; otherwise it is too small. */
  lemma AliveBytesIff(file: seq<Byte>, ranges: seq<Range>)
    requires StartsWithin(ranges, |file|)
    ensures |file| - ClippedBytes(ranges, |file|) <= |Kept(file, ranges, 0)|
    ensures |file| - ClippedBytes(ranges, |file|) == |Kept(file, ranges, 0)| <==> Disjoint(ranges, |file|)
  {
    UncoveredCounts(|file|, ranges);
    KeptCounts(file, ranges, 0);
  }

  // ----- Sorting the ranges -----

  ghost predicate Descending(ranges: seq<Range>) {
    forall i, j | 0 <= i < j < |ranges| :: ranges[i].start >= ranges[j].start
  }

  function Insert(r: Range, sorted: seq<Range>): (s: seq<Range>)
    ensures forall x :: x in s <==> x == r || x in sorted
  {
    if sorted == [] then [r]
    else if r.start >= sorted[0].start then [r] + sorted
    else [sorted[0]] + Insert(r, sorted[1..])
  }

  lemma {:induction false} InsertKeepsDescending(r: Range, sorted: seq<Range>)
    requires Descending(sorted)
    ensures Descending(Insert(r, sorted))
  {
    if sorted != [] && r.start < sorted[0].start {
      var rest := sorted[1..];
      InsertKeepsDescending(r, rest);
      forall i | 0 <= i < |Insert(r, rest)| ensures sorted[0].start >= Insert(r, rest)[i].start {
        assert Insert(r, rest)[i] in Insert(r, rest);
      }
    }
  }

  lemma ConsKeepsDisjoint(r: Range, sorted: seq<Range>, len: nat)
    requires Disjoint(sorted, len) && forall x | x in sorted :: Apart(r, x, len)
    ensures Disjoint([r] + sorted, len)
  {
    var all := [r] + sorted;
    forall i, j | 0 <= i < j < |all| ensures Apart(all[i], all[j], len) {
      assert all[j] == sorted[j - 1];
      if i > 0 { assert all[i] == sorted[i - 1]; }
    }
  }

  /** The ranges from the highest to the lowest start, so that the next one is at the end. */
  function Sorted(ranges: seq<Range>): (s: seq<Range>)
    ensures forall x :: x in s <==> x in ranges
  {
    if ranges == [] then []
    else
      var n := |ranges| - 1;
      assert ranges == ranges[..n] + [ranges[n]];
      Insert(ranges[n], Sorted(ranges[..n]))
  }

  lemma {:induction false} SortedIsDescending(ranges: seq<Range>)
    ensures Descending(Sorted(ranges))
  {
    if ranges != [] {
      SortedIsDescending(ranges[..|ranges| - 1]);
      InsertKeepsDescending(ranges[|ranges| - 1], Sorted(ranges[..|ranges| - 1]));
    }
  }

  lemma SortedKeeps(ranges: seq<Range>, len: nat)
    ensures StartsWithin(ranges, len) ==> StartsWithin(Sorted(ranges), len)
    ensures NonEmpty(ranges) ==> NonEmpty(Sorted(ranges))
    ensures forall p :: Covered(ranges, p) <==> Covered(Sorted(ranges), p)
  {
    var sorted := Sorted(ranges);
    forall i | 0 <= i < |sorted| ensures exists j | 0 <= j < |ranges| :: ranges[j] == sorted[i] {
      assert sorted[i] in ranges;
    }
    forall p ensures Covered(ranges, p) <==> Covered(sorted, p) {
      if i :| 0 <= i < |ranges| && Inside(ranges[i], p) {
        assert ranges[i] in sorted;
        var j :| 0 <= j < |sorted| && sorted[j] == ranges[i];
        assert Inside(sorted[j], p);
      }
      if i :| 0 <= i < |sorted| && Inside(sorted[i], p) {
        var j :| 0 <= j < |ranges| && ranges[j] == sorted[i];
        assert Inside(ranges[j], p);
      }
    }
  }

  // ----- What the reader delivers -----

  /** The bytes delivered from `pos` on when the pending ranges, the next one last, are skipped in turn.  A
      range that starts before `pos` ends the delivery. */
  ghost function Delivered(file: seq<Byte>, pending: seq<Range>, pos: nat): seq<Byte>
    requires pos <= |file| && StartsWithin(pending, |file|)
    decreases |pending|
  {
    if pending == [] then file[pos..]
    else
      var n := |pending| - 1;
      if pending[n].start < pos then []
      else file[pos..pending[n].start]
           + Delivered(file, pending[..n], pending[n].start + Clipped(pending[n], |file|))
  }

  /** Where the delivery ends: at the end of the file, or behind a range that the next one overlaps. */
  ghost function Stop(len: nat, pending: seq<Range>, pos: nat): (stop: nat)
    requires pos <= len && StartsWithin(pending, len)
    ensures pos <= stop <= len
    decreases |pending|
  {
    if pending == [] then len
    else
      var n := |pending| - 1;
      if pending[n].start < pos then pos
      else Stop(len, pending[..n], pending[n].start + Clipped(pending[n], len))
  }

  /** From `pos` on, the pending ranges are what is left of all ranges. */
  ghost predicate Ahead(len: nat, ranges: seq<Range>, pending: seq<Range>, pos: nat) {
    && pos <= len && Descending(pending) && StartsWithin(pending, len)
    && (forall p: nat | pos <= p < len :: Covered(ranges, p) <==> Covered(pending, p))
  }

  lemma AheadOfNext(len: nat, ranges: seq<Range>, pending: seq<Range>, pos: nat)
    requires Ahead(len, ranges, pending, pos) && pending != [] && pos <= pending[|pending| - 1].start
    ensures var n := |pending| - 1;
      var next := pending[n].start + Clipped(pending[n], len);
      && Ahead(len, ranges, pending[..n], next)
      && (forall p: nat | pos <= p < pending[n].start :: !Covered(ranges, p))
      && (forall p: nat | pending[n].start <= p < next :: Covered(ranges, p))
  {
    var n := |pending| - 1;
    var r := pending[n];
    forall p: nat | r.start <= p < r.start + Clipped(r, len) ensures Covered(ranges, p) {
      assert Inside(pending[n], p);
    }
    forall p: nat | r.start + Clipped(r, len) <= p < len ensures Covered(ranges, p) <==> Covered(pending[..n], p) {
      CoveredWithoutLast(pending, p);
    }
    forall p: nat | pos <= p < r.start ensures !Covered(ranges, p) {
      assert forall i | 0 <= i < |pending| :: pending[i].start >= r.start;
    }
  }

  /** What is delivered are the kept bytes up to the stop. */
  ghost predicate UpToStop(file: seq<Byte>, ranges: seq<Range>, pending: seq<Range>, pos: nat)
    requires pos <= |file| && StartsWithin(pending, |file|)
  {
    Kept(file, ranges, pos) == Delivered(file, pending, pos) + Kept(file, ranges, Stop(|file|, pending, pos))
  }

  lemma {:induction false} UpToStopAtEnd(file: seq<Byte>, ranges: seq<Range>, pos: nat)
    requires Ahead(|file|, ranges, [], pos)
    ensures UpToStop(file, ranges, [], pos)
  {
    KeptCopies(file, ranges, pos, |file|);
    assert file[pos..|file|] == file[pos..];
  }

  lemma {:induction false} UpToStopWhenStuck(file: seq<Byte>, ranges: seq<Range>, pending: seq<Range>, pos: nat)
    requires pos <= |file| && StartsWithin(pending, |file|) && pending != [] && pending[|pending| - 1].start < pos
    ensures UpToStop(file, ranges, pending, pos)
  {
    var nothing: seq<Byte> := [];
    assert nothing + Kept(file, ranges, pos) == Kept(file, ranges, pos);
  }

  lemma {:induction false} UpToStopAcross(file: seq<Byte>, ranges: seq<Range>, pending: seq<Range>, pos: nat)
    requires Ahead(|file|, ranges, pending, pos) && pending != [] && pending[|pending| - 1].start >= pos
    requires var n := |pending| - 1;
      UpToStop(file, ranges, pending[..n], pending[n].start + Clipped(pending[n], |file|))
    ensures UpToStop(file, ranges, pending, pos)
  {
    var n := |pending| - 1;
    var start, next := pending[n].start, pending[n].start + Clipped(pending[n], |file|);
    AheadOfNext(|file|, ranges, pending, pos);
    KeptAcross(file, ranges, pos, start, next);
    Chain(Kept(file, ranges, pos), file[pos..start], Kept(file, ranges, next),
          Delivered(file, pending[..n], next), Kept(file, ranges, Stop(|file|, pending[..n], next)));
  }

  lemma {:induction false} DeliversUpToStop(file: seq<Byte>, ranges: seq<Range>, pending: seq<Range>, pos: nat)
    requires Ahead(|file|, ranges, pending, pos)
    ensures UpToStop(file, ranges, pending, pos)
    decreases |pending|
  {
    if pending == [] {
      UpToStopAtEnd(file, ranges, pos);
    } else if pending[|pending| - 1].start < pos {
      UpToStopWhenStuck(file, ranges, pending, pos);
    } else {
      var n := |pending| - 1;
      AheadOfNext(|file|, ranges, pending, pos);
      DeliversUpToStop(file, ranges, pending[..n], pending[n].start + Clipped(pending[n], |file|));
      UpToStopAcross(file, ranges, pending, pos);
    }
  }

  lemma Chain(all: seq<Byte>, a: seq<Byte>, rest: seq<Byte>, b: seq<Byte>, c: seq<Byte>)
    requires all == a + rest && rest == b + c
    ensures all == (a + b) + c
  {
  }

  lemma {:induction false} KeptAcross(file: seq<Byte>, ranges: seq<Range>, pos: nat, start: nat, next: nat)
    requires pos <= start <= next <= |file|
    requires forall p: nat | pos <= p < start :: !Covered(ranges, p)
    requires forall p: nat | start <= p < next :: Covered(ranges, p)
    ensures Kept(file, ranges, pos) == file[pos..start] + Kept(file, ranges, next)
  {
    KeptCopies(file, ranges, pos, start);
    KeptSkips(file, ranges, start, next);
  }

  /** The ranges that start before `p` share no byte of the file. */
  ghost predicate ApartBefore(ranges: seq<Range>, len: nat, p: nat) {
    forall i, j | 0 <= i < j < |ranges| && ranges[i].start < p && ranges[j].start < p ::
      Apart(ranges[i], ranges[j], len)
  }

  /** Before every kept byte, no two ranges overlap. */
  ghost predicate NoOverlapBeforeKept(ranges: seq<Range>, len: nat) {
    forall p: nat | p < len && !Covered(ranges, p) :: ApartBefore(ranges, len, p)
  }

  ghost predicate ApartFrom(x: Range, ranges: seq<Range>, len: nat, p: nat) {
    x.start < p ==> forall y | y in ranges && y.start < p :: Apart(x, y, len)
  }

  lemma ApartBeforeCons(x: Range, rest: seq<Range>, len: nat, p: nat)
    ensures ApartBefore([x] + rest, len, p) <==> ApartBefore(rest, len, p) && ApartFrom(x, rest, len, p)
  {
    var all := [x] + rest;
    if ApartBefore(all, len, p) {
      forall i, j | 0 <= i < j < |rest| && rest[i].start < p && rest[j].start < p ensures Apart(rest[i], rest[j], len) {
        assert Apart(all[i + 1], all[j + 1], len);
      }
      forall y | y in rest && y.start < p && x.start < p ensures Apart(x, y, len) {
        var j :| 0 <= j < |rest| && rest[j] == y;
        assert Apart(all[0], all[j + 1], len);
      }
    }
    if ApartBefore(rest, len, p) && ApartFrom(x, rest, len, p) {
      forall i, j | 0 <= i < j < |all| && all[i].start < p && all[j].start < p ensures Apart(all[i], all[j], len) {
        assert all[j] == rest[j - 1];
        if i > 0 { assert Apart(rest[i - 1], rest[j - 1], len); } else { assert rest[j - 1] in rest; }
      }
    }
  }

  lemma ApartBeforeSnoc(ranges: seq<Range>, len: nat, p: nat)
    requires ranges != []
    ensures var n := |ranges| - 1;
      ApartBefore(ranges, len, p) <==> ApartBefore(ranges[..n], len, p) && ApartFrom(ranges[n], ranges[..n], len, p)
  {
    var n := |ranges| - 1;
    var rest := ranges[..n];
    if ApartBefore(ranges, len, p) {
      forall y | y in rest && y.start < p && ranges[n].start < p ensures Apart(ranges[n], y, len) {
        var j :| 0 <= j < |rest| && rest[j] == y;
        assert Apart(ranges[j], ranges[n], len);
      }
    }
    if ApartBefore(rest, len, p) && ApartFrom(ranges[n], rest, len, p) {
      forall i, j | 0 <= i < j < |ranges| && ranges[i].start < p && ranges[j].start < p
        ensures Apart(ranges[i], ranges[j], len)
      {
        assert ranges[i] == rest[i] && rest[i] in rest;
        if j < n { assert Apart(rest[i], rest[j], len); } else { assert Apart(ranges[n], rest[i], len); }
      }
    }
  }

  lemma {:induction false} ApartBeforeInsert(r: Range, sorted: seq<Range>, len: nat, p: nat)
    ensures ApartBefore(Insert(r, sorted), len, p) <==> ApartBefore(sorted, len, p) && ApartFrom(r, sorted, len, p)
  {
    if sorted == [] {
      assert Insert(r, sorted) == [r];
    } else if r.start >= sorted[0].start {
      ApartBeforeCons(r, sorted, len, p);
    } else {
      var x, rest := sorted[0], sorted[1..];
      assert sorted == [x] + rest;
      ApartBeforeInsert(r, rest, len, p);
      ApartBeforeCons(x, Insert(r, rest), len, p);
      ApartBeforeCons(x, rest, len, p);
      ApartIsSymmetric(r, x, len);
      assert ApartFrom(r, sorted, len, p) <==>
        ApartFrom(r, rest, len, p) && (r.start < p && x.start < p ==> Apart(r, x, len));
    }
  }

  lemma ApartIsSymmetric(a: Range, b: Range, len: nat)
    ensures Apart(a, b, len) <==> Apart(b, a, len)
  {
  }

  /** Whether overlaps come before `p` does not depend on the order of the ranges. */
  lemma {:induction false} SortedApartBefore(ranges: seq<Range>, len: nat, p: nat)
    ensures ApartBefore(Sorted(ranges), len, p) <==> ApartBefore(ranges, len, p)
  {
    if ranges != [] {
      var n := |ranges| - 1;
      SortedApartBefore(ranges[..n], len, p);
      ApartBeforeInsert(ranges[n], Sorted(ranges[..n]), len, p);
      ApartBeforeSnoc(ranges, len, p);
      assert ApartFrom(ranges[n], Sorted(ranges[..n]), len, p) <==> ApartFrom(ranges[n], ranges[..n], len, p);
    }
  }

  /** Seen from `pos`, every pending range that starts before `p` starts at or after `pos`, and no two such
      ranges overlap. */
  ghost predicate ClearBefore(pending: seq<Range>, len: nat, pos: nat, p: nat) {
    && ApartBefore(pending, len, p)
    && forall i | 0 <= i < |pending| && pending[i].start < p :: pos <= pending[i].start
  }

  /** The kept bytes from `pos` on that the pending ranges cut off. */
  ghost function CutOff(ranges: seq<Range>, pending: seq<Range>, len: nat, pos: nat): set<nat> {
    set p: nat | pos <= p < len && !Covered(ranges, p) && !ClearBefore(pending, len, pos, p)
  }

  /** The positions of the kept bytes from `pos` on. */
  ghost function KeptFrom(ranges: seq<Range>, len: nat, pos: nat): set<nat> {
    set p: nat | pos <= p < len && !Covered(ranges, p)
  }

  lemma {:induction false} NothingKeptIff(file: seq<Byte>, ranges: seq<Range>, pos: nat)
    requires pos <= |file|
    ensures Kept(file, ranges, pos) == [] <==> KeptFrom(ranges, |file|, pos) == {}
    decreases |file| - pos
  {
    if pos < |file| {
      NothingKeptIff(file, ranges, pos + 1);
      var here, after := KeptFrom(ranges, |file|, pos), KeptFrom(ranges, |file|, pos + 1);
      assert here == after + if Covered(ranges, pos) then {} else {pos};
    }
  }

  /** A later range is apart from the next one before `p` exactly when it starts behind it. */
  lemma ApartFromNextIff(pending: seq<Range>, len: nat, p: nat)
    requires pending != [] && Descending(pending) && StartsWithin(pending, len) && NonEmpty(pending)
    requires var r := pending[|pending| - 1]; r.start + Clipped(r, len) <= p < len
    ensures var n := |pending| - 1;
      var next := pending[n].start + Clipped(pending[n], len);
      ApartFrom(pending[n], pending[..n], len, p) <==>
        forall i | 0 <= i < n && pending[..n][i].start < p :: next <= pending[..n][i].start
  {
    var n := |pending| - 1;
    var r, rest := pending[n], pending[..n];
    var next := r.start + Clipped(r, len);
    assert next == r.start + r.size;
    if ApartFrom(r, rest, len, p) {
      forall i | 0 <= i < n && rest[i].start < p ensures next <= rest[i].start {
        assert rest[i] in rest && Apart(r, rest[i], len);
        assert !(Inside(r, rest[i].start) && Inside(rest[i], rest[i].start));
      }
    }
  }

  lemma ClearBeforeNext(pending: seq<Range>, len: nat, pos: nat, p: nat)
    requires pending != [] && Descending(pending) && StartsWithin(pending, len) && NonEmpty(pending)
    requires pos <= pending[|pending| - 1].start
    requires var r := pending[|pending| - 1]; r.start + Clipped(r, len) <= p < len
    ensures var n := |pending| - 1;
      var next := pending[n].start + Clipped(pending[n], len);
      ClearBefore(pending, len, pos, p) <==> ClearBefore(pending[..n], len, next, p)
  {
    ApartBeforeSnoc(pending, len, p);
    ApartFromNextIff(pending, len, p);
  }

  lemma CutOffNext(ranges: seq<Range>, pending: seq<Range>, len: nat, pos: nat)
    requires Ahead(len, ranges, pending, pos) && NonEmpty(pending)
    requires pending != [] && pos <= pending[|pending| - 1].start
    ensures var n := |pending| - 1;
      CutOff(ranges, pending, len, pos)
      == CutOff(ranges, pending[..n], len, pending[n].start + Clipped(pending[n], len))
  {
    var n := |pending| - 1;
    var next := pending[n].start + Clipped(pending[n], len);
    AheadOfNext(len, ranges, pending, pos);
    forall p: nat ensures p in CutOff(ranges, pending, len, pos) <==> p in CutOff(ranges, pending[..n], len, next) {
      if next <= p < len {
        ClearBeforeNext(pending, len, pos, p);
      }
    }
  }

  lemma StuckCutsOff(ranges: seq<Range>, pending: seq<Range>, len: nat, pos: nat)
    requires pending != [] && pending[|pending| - 1].start < pos
    ensures KeptFrom(ranges, len, pos) == CutOff(ranges, pending, len, pos)
  {
  }

  lemma NothingPendingCutsOff(ranges: seq<Range>, len: nat, pos: nat)
    ensures KeptFrom(ranges, len, len) == {} && CutOff(ranges, [], len, pos) == {}
  {
  }

  /** Kept bytes are left at the stop exactly when some are cut off. */
  ghost predicate LeftIffCutOff(ranges: seq<Range>, len: nat, stop: nat, cut: set<nat>) {
    KeptFrom(ranges, len, stop) == {} <==> cut == {}
  }

  lemma {:induction false} StopsLateIff(ranges: seq<Range>, pending: seq<Range>, len: nat, pos: nat)
    requires Ahead(len, ranges, pending, pos) && NonEmpty(pending)
    ensures LeftIffCutOff(ranges, len, Stop(len, pending, pos), CutOff(ranges, pending, len, pos))
    decreases |pending|
  {
    var stop, cut := Stop(len, pending, pos), CutOff(ranges, pending, len, pos);
    if pending == [] {
      NothingPendingCutsOff(ranges, len, pos);
    } else if pending[|pending| - 1].start < pos {
      StuckCutsOff(ranges, pending, len, pos);
    } else {
      var n := |pending| - 1;
      var next := pending[n].start + Clipped(pending[n], len);
      AheadOfNext(len, ranges, pending, pos);
      CutOffNext(ranges, pending, len, pos);
      StopsLateIff(ranges, pending[..n], len, next);
      assert stop == Stop(len, pending[..n], next) && cut == CutOff(ranges, pending[..n], len, next);
    }
    assert LeftIffCutOff(ranges, len, stop, cut);
  }

  lemma NothingCutOffIff(ranges: seq<Range>, len: nat)
    ensures CutOff(ranges, Sorted(ranges), len, 0) == {} <==> NoOverlapBeforeKept(ranges, len)
  {
    forall p: nat ensures p in CutOff(ranges, Sorted(ranges), len, 0)
        <==> p < len && !Covered(ranges, p) && !ApartBefore(ranges, len, p)
    {
      SortedApartBefore(ranges, len, p);
    }
  }

  /** A prefix of the kept bytes is delivered, and everything if and only if no two ranges that start
      before a kept byte overlap. */
  lemma DeliversAllIff(file: seq<Byte>, ranges: seq<Range>)
    requires StartsWithin(ranges, |file|) && NonEmpty(ranges)
    ensures StartsWithin(Sorted(ranges), |file|) && Delivered(file, Sorted(ranges), 0) <= Kept(file, ranges, 0)
    ensures Delivered(file, Sorted(ranges), 0) == Kept(file, ranges, 0) <==> NoOverlapBeforeKept(ranges, |file|)
  {
    var pending := Sorted(ranges);
    SortedKeeps(ranges, |file|);
    SortedIsDescending(ranges);
    DeliversUpToStop(file, ranges, pending, 0);
    NothingKeptIff(file, ranges, Stop(|file|, pending, 0));
    StopsLateIff(ranges, pending, |file|, 0);
    NothingCutOffIff(ranges, |file|);
  }

  /** Ranges that share no byte of the file never stop the delivery early. */
  lemma DisjointDeliversAll(file: seq<Byte>, ranges: seq<Range>)
    requires StartsWithin(ranges, |file|) && NonEmpty(ranges) && Disjoint(ranges, |file|)
    ensures StartsWithin(Sorted(ranges), |file|)
    ensures Delivered(file, Sorted(ranges), 0) == Kept(file, ranges, 0)
  {
    DeliversAllIff(file, ranges);
    assert NoOverlapBeforeKept(ranges, |file|);
  }

  lemma SortedTwice(r: Range)
    ensures Sorted([r, r]) == [r, r]
  {
    calc {
      Sorted([r, r]);
      { assert [r, r][..1] == [r]; }
      Insert(r, Sorted([r]));
      { assert [r][..0] == []; assert Sorted([]) == []; }
      Insert(r, Insert(r, []));
      Insert(r, [r]);
      [r, r];
    }
  }

  /** A range that is listed twice stops the delivery behind it, although the bytes after it are kept, and
      makes the computed length too small. */
  lemma RepeatedOffsetStops(file: seq<Byte>, r: Range)
    requires 0 < r.size && r.start + r.size < |file|
    ensures StartsWithin(Sorted([r, r]), |file|) && Delivered(file, Sorted([r, r]), 0) == file[..r.start]
    ensures Kept(file, [r, r], 0) == file[..r.start] + file[r.start + r.size..]
    ensures |file| - ClippedBytes([r, r], |file|) == |Kept(file, [r, r], 0)| - r.size
  {
    var end := r.start + r.size;
    SortedTwice(r);
    assert [r, r][..1] == [r] && [r][..0] == [];
    assert ClippedBytes([r], |file|) == r.size;
    forall p: nat ensures Covered([r, r], p) <==> Inside(r, p) {
      assert [r, r][0] == r;
    }
    KeptCopies(file, [r, r], 0, r.start);
    KeptSkips(file, [r, r], r.start, end);
    KeptCopies(file, [r, r], end, |file|);
    assert file[0..r.start] == file[..r.start] && file[end..|file|] == file[end..];
  }

  lemma Regroup(a: seq<Byte>, b: seq<Byte>, c: seq<Byte>)
    ensures a + (b + c) == (a + b) + c
  {
  }

  // ----- The reader -----

  /** The ranges of the accounts that were obsolete at the snapshot slot. */
  function ObsoleteRanges(obsolete: seq<ObsoleteAccount>, snapshotSlot: Option<Slot>): (ranges: seq<Range>)
    ensures NonEmpty(ranges)
  {
    if obsolete == [] then []
    else
      var n := |obsolete| - 1;
      var last := obsolete[n];
      ObsoleteRanges(obsolete[..n], snapshotSlot)
      + if WithinBound(last.slot, snapshotSlot) then [Range(last.offset, StoredSize(last.dataLen))] else []
  }

  /** The account was obsolete at the snapshot slot and the byte belongs to it. */
  ghost predicate Cuts(account: ObsoleteAccount, snapshotSlot: Option<Slot>, p: nat) {
    && (snapshotSlot.None? || account.slot <= snapshotSlot.value)
    && account.offset <= p < account.offset + StoredSize(account.dataLen)
  }

  /** Some account that was obsolete at the snapshot slot holds the byte. */
  ghost predicate Cut(obsolete: seq<ObsoleteAccount>, snapshotSlot: Option<Slot>, p: nat) {
    exists i | 0 <= i < |obsolete| :: Cuts(obsolete[i], snapshotSlot, p)
  }

  /** No byte before `len` belongs to both accounts. */
  ghost predicate ShareNone(a: ObsoleteAccount, b: ObsoleteAccount, snapshotSlot: Option<Slot>, len: nat) {
    forall p: nat | p < len :: !(Cuts(a, snapshotSlot, p) && Cuts(b, snapshotSlot, p))
  }

  /** `picks` lists, in order, the accounts that were obsolete at the snapshot slot, and `ranges` their ranges. */
  ghost predicate Picked(
    obsolete: seq<ObsoleteAccount>, snapshotSlot: Option<Slot>, ranges: seq<Range>, picks: seq<nat>)
  {
    && |picks| == |ranges|
    && (forall a, b | 0 <= a < b < |picks| :: picks[a] < picks[b])
    && (forall i :: i in picks <==>
          0 <= i < |obsolete| && (snapshotSlot.None? || obsolete[i].slot <= snapshotSlot.value))
    && (forall a | 0 <= a < |picks| && picks[a] < |obsolete| ::
          ranges[a] == Range(obsolete[picks[a]].offset, StoredSize(obsolete[picks[a]].dataLen)))
  }

  lemma PickedOneMore(obsolete: seq<ObsoleteAccount>, snapshotSlot: Option<Slot>, ranges: seq<Range>, picks: seq<nat>,
                      last: ObsoleteAccount)
    requires Picked(obsolete, snapshotSlot, ranges, picks)
    ensures if snapshotSlot.None? || last.slot <= snapshotSlot.value
            then Picked(obsolete + [last], snapshotSlot, ranges + [Range(last.offset, StoredSize(last.dataLen))],
                        picks + [|obsolete|])
            else Picked(obsolete + [last], snapshotSlot, ranges, picks)
  {
    assert forall a | 0 <= a < |picks| :: picks[a] in picks;
  }

  /** Each account that was obsolete at the snapshot slot gives exactly one range, in order; `picks` tells
      which account each range comes from. */
  lemma {:induction false} OneRangeEach(obsolete: seq<ObsoleteAccount>, snapshotSlot: Option<Slot>)
    returns (picks: seq<nat>)
    ensures Picked(obsolete, snapshotSlot, ObsoleteRanges(obsolete, snapshotSlot), picks)
  {
    picks := [];
    if obsolete != [] {
      var n := |obsolete| - 1;
      picks := OneRangeEach(obsolete[..n], snapshotSlot);
      PickedOneMore(obsolete[..n], snapshotSlot, ObsoleteRanges(obsolete[..n], snapshotSlot), picks, obsolete[n]);
      assert obsolete[..n] + [obsolete[n]] == obsolete;
      if snapshotSlot.None? || obsolete[n].slot <= snapshotSlot.value {
        picks := picks + [n];
      }
    }
  }

  /** A byte is cut out if and only if it belongs to an account that was obsolete at the snapshot slot. */
  lemma CutIff(obsolete: seq<ObsoleteAccount>, snapshotSlot: Option<Slot>, p: nat)
    ensures Covered(ObsoleteRanges(obsolete, snapshotSlot), p) <==>
      exists i | 0 <= i < |obsolete| ::
        && (snapshotSlot.None? || obsolete[i].slot <= snapshotSlot.value)
        && obsolete[i].offset <= p < obsolete[i].offset + StoredSize(obsolete[i].dataLen)
    ensures Covered(ObsoleteRanges(obsolete, snapshotSlot), p) <==> Cut(obsolete, snapshotSlot, p)
  {
    var ranges := ObsoleteRanges(obsolete, snapshotSlot);
    var picks := OneRangeEach(obsolete, snapshotSlot);
    if Covered(ranges, p) {
      var a :| 0 <= a < |ranges| && Inside(ranges[a], p);
      assert picks[a] in picks;
      assert Cuts(obsolete[picks[a]], snapshotSlot, p);
    }
    if Cut(obsolete, snapshotSlot, p) {
      var i :| 0 <= i < |obsolete| && Cuts(obsolete[i], snapshotSlot, p);
      assert i in picks;
      var a :| 0 <= a < |picks| && picks[a] == i;
      assert Inside(ranges[a], p);
    }
  }

  /** No two accounts share a byte of the file among those that start before the byte `p`. */
  ghost predicate SharedNoneBefore(obsolete: seq<ObsoleteAccount>, snapshotSlot: Option<Slot>, len: nat, p: nat) {
    forall i, j | 0 <= i < j < |obsolete| && obsolete[i].offset < p && obsolete[j].offset < p ::
      ShareNone(obsolete[i], obsolete[j], snapshotSlot, len)
  }

  /** The range of an account that was obsolete at the snapshot slot. */
  ghost predicate RangeOf(r: Range, account: ObsoleteAccount, snapshotSlot: Option<Slot>) {
    && (snapshotSlot.None? || account.slot <= snapshotSlot.value)
    && r == Range(account.offset, StoredSize(account.dataLen))
  }

  lemma ApartIffShareNone(r: Range, a: ObsoleteAccount, q: Range, b: ObsoleteAccount, snapshotSlot: Option<Slot>,
                          len: nat)
    requires RangeOf(r, a, snapshotSlot) && RangeOf(q, b, snapshotSlot)
    ensures Apart(r, q, len) <==> ShareNone(a, b, snapshotSlot, len)
  {
    assert forall p: nat :: Inside(r, p) <==> Cuts(a, snapshotSlot, p);
    assert forall p: nat :: Inside(q, p) <==> Cuts(b, snapshotSlot, p);
  }

  lemma AccountOfRange(obsolete: seq<ObsoleteAccount>, snapshotSlot: Option<Slot>, picks: seq<nat>, a: nat)
    requires a < |picks| == |ObsoleteRanges(obsolete, snapshotSlot)|
    requires Picked(obsolete, snapshotSlot, ObsoleteRanges(obsolete, snapshotSlot), picks)
    ensures picks[a] < |obsolete|
    ensures RangeOf(ObsoleteRanges(obsolete, snapshotSlot)[a], obsolete[picks[a]], snapshotSlot)
  {
    assert picks[a] in picks;
  }

  lemma SharedNoneIsApart(obsolete: seq<ObsoleteAccount>, snapshotSlot: Option<Slot>, len: nat, p: nat)
    requires SharedNoneBefore(obsolete, snapshotSlot, len, p)
    ensures ApartBefore(ObsoleteRanges(obsolete, snapshotSlot), len, p)
  {
    var ranges := ObsoleteRanges(obsolete, snapshotSlot);
    var picks := OneRangeEach(obsolete, snapshotSlot);
    forall a, b | 0 <= a < b < |ranges| && ranges[a].start < p && ranges[b].start < p
      ensures Apart(ranges[a], ranges[b], len)
    {
      AccountOfRange(obsolete, snapshotSlot, picks, a);
      AccountOfRange(obsolete, snapshotSlot, picks, b);
      ApartIffShareNone(ranges[a], obsolete[picks[a]], ranges[b], obsolete[picks[b]], snapshotSlot, len);
    }
  }

  lemma ApartIsSharedNone(obsolete: seq<ObsoleteAccount>, snapshotSlot: Option<Slot>, len: nat, p: nat)
    requires ApartBefore(ObsoleteRanges(obsolete, snapshotSlot), len, p)
    ensures SharedNoneBefore(obsolete, snapshotSlot, len, p)
  {
    var ranges := ObsoleteRanges(obsolete, snapshotSlot);
    var picks := OneRangeEach(obsolete, snapshotSlot);
    forall i, j | 0 <= i < j < |obsolete| && obsolete[i].offset < p && obsolete[j].offset < p
      ensures ShareNone(obsolete[i], obsolete[j], snapshotSlot, len)
    {
      if i in picks && j in picks {
        var a, b :| 0 <= a < |picks| && picks[a] == i && 0 <= b < |picks| && picks[b] == j;
        AccountOfRange(obsolete, snapshotSlot, picks, a);
        AccountOfRange(obsolete, snapshotSlot, picks, b);
        ApartIffShareNone(ranges[a], obsolete[i], ranges[b], obsolete[j], snapshotSlot, len);
      }
    }
  }

  /** The ranges share no byte if and only if the obsolete accounts do not. */
  lemma DisjointIff(obsolete: seq<ObsoleteAccount>, snapshotSlot: Option<Slot>, len: nat)
    ensures Disjoint(ObsoleteRanges(obsolete, snapshotSlot), len) <==>
      forall i, j | 0 <= i < j < |obsolete| :: ShareNone(obsolete[i], obsolete[j], snapshotSlot, len)
  {
    var ranges := ObsoleteRanges(obsolete, snapshotSlot);
    var end := Behind(ranges) + BehindAll(obsolete);
    if ApartBefore(ranges, len, end) {
      ApartIsSharedNone(obsolete, snapshotSlot, len, end);
    }
    if SharedNoneBefore(obsolete, snapshotSlot, len, end) {
      SharedNoneIsApart(obsolete, snapshotSlot, len, end);
    }
    assert Disjoint(ranges, len) <==> ApartBefore(ranges, len, end);
    assert SharedNoneBefore(obsolete, snapshotSlot, len, end) <==>
      forall i, j | 0 <= i < j < |obsolete| :: ShareNone(obsolete[i], obsolete[j], snapshotSlot, len);
  }

  /** A position behind the start of every range. */
  ghost function Behind(ranges: seq<Range>): (end: nat)
    ensures forall i | 0 <= i < |ranges| :: ranges[i].start < end
  {
    if ranges == [] then 0
    else Behind(ranges[..|ranges| - 1]) + ranges[|ranges| - 1].start + 1
  }

  ghost function BehindAll(obsolete: seq<ObsoleteAccount>): (end: nat)
    ensures forall i | 0 <= i < |obsolete| :: obsolete[i].offset < end
  {
    if obsolete == [] then 0
    else BehindAll(obsolete[..|obsolete| - 1]) + obsolete[|obsolete| - 1].offset + 1
  }

  /** Nothing overlaps before a kept byte if and only if that holds of the obsolete accounts. */
  lemma NoOverlapIff(obsolete: seq<ObsoleteAccount>, snapshotSlot: Option<Slot>, len: nat)
    ensures NoOverlapBeforeKept(ObsoleteRanges(obsolete, snapshotSlot), len) <==>
      forall p: nat | p < len && !Cut(obsolete, snapshotSlot, p) ::
        SharedNoneBefore(obsolete, snapshotSlot, len, p)
  {
    var ranges := ObsoleteRanges(obsolete, snapshotSlot);
    forall p: nat ensures Covered(ranges, p) <==> Cut(obsolete, snapshotSlot, p) {
      CutIff(obsolete, snapshotSlot, p);
    }
    forall p: nat | ApartBefore(ranges, len, p) ensures SharedNoneBefore(obsolete, snapshotSlot, len, p) {
      ApartIsSharedNone(obsolete, snapshotSlot, len, p);
    }
    forall p: nat | SharedNoneBefore(obsolete, snapshotSlot, len, p) ensures ApartBefore(ranges, len, p) {
      SharedNoneIsApart(obsolete, snapshotSlot, len, p);
    }
  }

  lemma StartsIff(obsolete: seq<ObsoleteAccount>, snapshotSlot: Option<Slot>, len: nat)
    requires forall o | o in obsolete && (snapshotSlot.None? || o.slot <= snapshotSlot.value) :: o.offset <= len
    ensures StartsWithin(ObsoleteRanges(obsolete, snapshotSlot), len)
  {
    var picks := OneRangeEach(obsolete, snapshotSlot);
    forall a | 0 <= a < |picks| ensures ObsoleteRanges(obsolete, snapshotSlot)[a].start <= len {
      assert picks[a] in picks;
    }
  }

  /** The positions from `pos` on that no range covers, in order. */
  ghost function KeptAt(len: nat, ranges: seq<Range>, pos: nat): seq<nat>
    decreases len - pos
  {
    if pos >= len then [] else (if Covered(ranges, pos) then [] else [pos]) + KeptAt(len, ranges, pos + 1)
  }

  lemma {:induction false} KeptIsAt(file: seq<Byte>, ranges: seq<Range>, pos: nat)
    ensures |KeptAt(|file|, ranges, pos)| == |Kept(file, ranges, pos)|
    ensures forall a | 0 <= a < |Kept(file, ranges, pos)| ::
      && pos <= KeptAt(|file|, ranges, pos)[a] < |file|
      && Kept(file, ranges, pos)[a] == file[KeptAt(|file|, ranges, pos)[a]]
    decreases |file| - pos
  {
    if pos < |file| { KeptIsAt(file, ranges, pos + 1); }
  }

  lemma {:induction false} KeptAtIsAll(len: nat, ranges: seq<Range>, pos: nat)
    ensures forall p :: p in KeptAt(len, ranges, pos) <==> pos <= p < len && !Covered(ranges, p)
    ensures forall a, b | 0 <= a < b < |KeptAt(len, ranges, pos)| ::
      KeptAt(len, ranges, pos)[a] < KeptAt(len, ranges, pos)[b]
    decreases len - pos
  {
    if pos < len {
      KeptAtIsAll(len, ranges, pos + 1);
      var rest := KeptAt(len, ranges, pos + 1);
      assert forall a | 0 <= a < |rest| :: rest[a] in rest;
    }
  }

  /** The bytes of the file that no account obsolete at the snapshot slot holds. */
  ghost function AliveBytes(len: nat, obsolete: seq<ObsoleteAccount>, snapshotSlot: Option<Slot>): set<nat> {
    set p: nat | p < len && !Cut(obsolete, snapshotSlot, p)
  }

  lemma AliveBytesAreKept(bytes: seq<Byte>, obsolete: seq<ObsoleteAccount>, snapshotSlot: Option<Slot>)
    ensures |Kept(bytes, ObsoleteRanges(obsolete, snapshotSlot), 0)| == |AliveBytes(|bytes|, obsolete, snapshotSlot)|
  {
    var ranges := ObsoleteRanges(obsolete, snapshotSlot);
    KeptCounts(bytes, ranges, 0);
    forall p: nat { CutIff(obsolete, snapshotSlot, p); }
    assert AliveBytes(|bytes|, obsolete, snapshotSlot) == Uncovered(|bytes|, ranges, 0);
  }

  class Reader {
    const file: seq<Byte>
    const ranges: seq<Range>
    /** What the source computes with unsigned numbers; negative where that would overflow. */
    const numAliveBytes: int
    /** The obsolete ranges not passed yet, the next one last. */
    var pending: seq<Range>
    var currentOffset: nat

    ghost predicate Valid()
      reads this
    {
      currentOffset <= |file| && StartsWithin(pending, |file|)
    }

    /** What is still to be delivered. */
    ghost function Rest(): seq<Byte>
      requires Valid()
      reads this
    {
      Delivered(file, pending, currentOffset)
    }

    /** Open a storage, skipping the accounts that were obsolete at the snapshot slot.  Length and delivery
        are exact when the ranges share no byte of the file; the length only then. */
    constructor (bytes: seq<Byte>, obsolete: seq<ObsoleteAccount>, snapshotSlot: Option<Slot>)
      requires forall o | o in obsolete && (snapshotSlot.None? || o.slot <= snapshotSlot.value) :: o.offset <= |bytes|
      ensures Valid() && file == bytes && ranges == ObsoleteRanges(obsolete, snapshotSlot)
      ensures forall p: nat :: Covered(ranges, p) <==> Cut(obsolete, snapshotSlot, p)
      ensures numAliveBytes == |Kept(file, ranges, 0)| <==> Disjoint(ranges, |file|)
      ensures Disjoint(ranges, |file|) ==> Rest() == Kept(file, ranges, 0) && numAliveBytes == |Rest()|
      ensures Rest() <= Kept(file, ranges, 0)
      ensures Rest() == Kept(file, ranges, 0) <==> NoOverlapBeforeKept(ranges, |file|)
      ensures numAliveBytes == |AliveBytes(|bytes|, obsolete, snapshotSlot)| <==>
        forall i, j | 0 <= i < j < |obsolete| :: ShareNone(obsolete[i], obsolete[j], snapshotSlot, |bytes|)
      ensures Rest() == Kept(file, ranges, 0) <==>
        forall p: nat | p < |bytes| && !Cut(obsolete, snapshotSlot, p) ::
          SharedNoneBefore(obsolete, snapshotSlot, |bytes|, p)
    {
      var skipped := ObsoleteRanges(obsolete, snapshotSlot);
      StartsIff(obsolete, snapshotSlot, |bytes|);
      forall p: nat ensures Covered(skipped, p) <==> Cut(obsolete, snapshotSlot, p) {
        CutIff(obsolete, snapshotSlot, p);
      }
      DisjointIff(obsolete, snapshotSlot, |bytes|);
      NoOverlapIff(obsolete, snapshotSlot, |bytes|);
      AliveBytesAreKept(bytes, obsolete, snapshotSlot);
      AliveBytesIff(bytes, skipped);
      SortedKeeps(skipped, |bytes|);
      DeliversAllIff(bytes, skipped);
      if Disjoint(skipped, |bytes|) {
        DisjointDeliversAll(bytes, skipped);
      }
      file, ranges, pending, currentOffset := bytes, skipped, Sorted(skipped), 0;
      numAliveBytes := |bytes| - ClippedBytes(skipped, |bytes|);
    }

    function Len(): int { numAliveBytes }

    /** Pass the next obsolete range. */
    method Skip()
      requires Valid() && pending != [] && currentOffset == pending[|pending| - 1].start
      modifies this
      ensures Valid() && Rest() == old(Rest()) && |pending| == |old(pending)| - 1
    {
      var n := |pending| - 1;
      assert file[currentOffset..currentOffset] == [];
      currentOffset := currentOffset + Clipped(pending[n], |file|);
      pending := pending[..n];
    }

    /** Read from the file up to the next obsolete range; the file may deliver fewer bytes than asked
        for, but none only at the end or when the next range has been overrun. */
    method ReadChunk(buf: array<Byte>, at: nat) returns (readSize: nat)
      requires Valid() && at < buf.Length && (pending == [] || currentOffset != pending[|pending| - 1].start)
      modifies this`currentOffset, buf
      ensures Valid() && at + readSize <= buf.Length
      ensures exists chunk: seq<Byte> :: old(Rest()) == chunk + Rest() && buf[..at + readSize] == old(buf[..at]) + chunk
      ensures buf[at + readSize..] == old(buf[at + readSize..])
      ensures readSize == 0 ==> Rest() == []
    {
      var left := buf.Length - at;
      var limit := if pending == [] then |file| else pending[|pending| - 1].start;
      var available := if currentOffset <= limit then limit - currentOffset else 0;
      var wanted := if left <= available then left else available;
      readSize := 0;
      if wanted > 0 {
        readSize :| 0 < readSize <= wanted;
      }
      ghost var chunk := file[currentOffset..currentOffset + readSize];
      Fill(buf, at, readSize);
      DeliverChunk(file, pending, currentOffset, readSize);
      currentOffset := currentOffset + readSize;
      assert old(Rest()) == chunk + Rest() && buf[..at + readSize] == old(buf[..at]) + chunk;
    }

    /** Fill the buffer, skipping obsolete ranges.  It is filled unless everything has been read. */
    method Read(buf: array<Byte>) returns (total: nat)
      requires Valid()
      modifies this, buf
      ensures Valid()
      ensures total == (if buf.Length <= |old(Rest())| then buf.Length else |old(Rest())|)
      ensures old(Rest()) == buf[..total] + Rest()
      ensures buf[total..] == old(buf[total..])
    {
      total := 0;
      while total < buf.Length
        invariant Valid() && total <= buf.Length
        invariant old(Rest()) == buf[..total] + Rest()
        invariant buf[total..] == old(buf[total..])
        decreases |pending| + buf.Length - total
      {
        if pending != [] && currentOffset == pending[|pending| - 1].start {
          Skip();
          continue;
        }
        ghost var rest, filled, tail := Rest(), buf[..total], buf[total..];
        var readSize := ReadChunk(buf, total);
        assert old(Rest()) == buf[..total + readSize] + Rest() by {
          var chunk :| rest == chunk + Rest() && buf[..total + readSize] == filled + chunk;
          Regroup(filled, chunk, Rest());
        }
        assert buf[total + readSize..] == tail[readSize..];
        if readSize == 0 {
          break;
        }
        total := total + readSize;
      }
    }

    /** Copy the next bytes of the file into the buffer. */
    method Fill(buf: array<Byte>, at: nat, count: nat)
      requires at + count <= buf.Length && currentOffset + count <= |file|
      modifies buf
      ensures buf[..at + count] == old(buf[..at]) + file[currentOffset..currentOffset + count]
      ensures buf[at + count..] == old(buf[at + count..])
    {
      for i := 0 to count
        invariant forall j | 0 <= j < at :: buf[j] == old(buf[j])
        invariant forall j | at <= j < at + i :: buf[j] == file[currentOffset + j - at]
        invariant forall j | at + i <= j < buf.Length :: buf[j] == old(buf[j])
      {
        buf[at + i] := file[currentOffset + i];
      }
    }
  }

  lemma DeliverChunk(file: seq<Byte>, pending: seq<Range>, pos: nat, count: nat)
    requires pos <= |file| && StartsWithin(pending, |file|)
    requires count == 0 || pos + count <= if pending == [] then |file| else pending[|pending| - 1].start
    ensures pos + count <= |file|
    ensures Delivered(file, pending, pos) == file[pos..pos + count] + Delivered(file, pending, pos + count)
  {
    if count > 0 {
      var limit := if pending == [] then |file| else pending[|pending| - 1].start;
      assert file[pos..limit] == file[pos..pos + count] + file[pos + count..limit];
    }
  }

  /** Any series of reads delivers the file without its obsolete ranges, in order. */
  method ReadSeries(reader: Reader, sizes: seq<nat>) returns (output: seq<Byte>)
    requires reader.Valid()
    modifies reader
    ensures reader.Valid() && old(reader.Rest()) == output + reader.Rest()
  {
    output := [];
    for i := 0 to |sizes|
      invariant reader.Valid() && old(reader.Rest()) == output + reader.Rest()
    {
      var buf := new Byte[sizes[i]];
      var count := reader.Read(buf);
      Regroup(output, buf[..count], reader.Rest());
      output := output + buf[..count];
    }
  }

  /** Reading until a non-empty buffer gets nothing. */
  method ReadRest(reader: Reader, bufferSize: nat) returns (output: seq<Byte>)
    requires reader.Valid() && bufferSize > 0
    modifies reader
    ensures output == old(reader.Rest())
  {
    output := [];
    while true
      invariant reader.Valid() && old(reader.Rest()) == output + reader.Rest()
      decreases |reader.Rest()|
    {
      var buf := new Byte[bufferSize];
      ghost var rest := reader.Rest();
      var count := reader.Read(buf);
      if count == 0 {
        break;
      }
      Regroup(output, buf[..count], reader.Rest());
      output := output + buf[..count];
    }
  }

  lemma PrefixIsBefore(all: seq<nat>, n: nat, p: nat)
    requires n <= |all| && p in all && p !in all[..n] && forall a, b | 0 <= a < b < |all| :: all[a] < all[b]
    ensures forall q | q in all[..n] :: q < p
  {
    var a :| 0 <= a < |all| && all[a] == p;
    assert forall b | 0 <= b < n :: all[..n][b] == all[b];
  }

  /** What a prefix of the kept bytes consists of. */
  lemma PrefixOfKept(bytes: seq<Byte>, obsolete: seq<ObsoleteAccount>, snapshotSlot: Option<Slot>, output: seq<Byte>)
    returns (from: seq<nat>)
    requires output <= Kept(bytes, ObsoleteRanges(obsolete, snapshotSlot), 0)
    ensures |from| == |output| && (forall a, b | 0 <= a < b < |from| :: from[a] < from[b])
    ensures forall a | 0 <= a < |from| ::
      from[a] < |bytes| && output[a] == bytes[from[a]] && !Cut(obsolete, snapshotSlot, from[a])
    ensures forall p: nat | p < |bytes| && !Cut(obsolete, snapshotSlot, p) && p !in from ::
      forall q | q in from :: q < p
    ensures (forall p: nat | p < |bytes| && !Cut(obsolete, snapshotSlot, p) :: p in from)
            <==> output == Kept(bytes, ObsoleteRanges(obsolete, snapshotSlot), 0)
  {
    var ranges := ObsoleteRanges(obsolete, snapshotSlot);
    var all := KeptAt(|bytes|, ranges, 0);
    forall p: nat ensures Covered(ranges, p) <==> Cut(obsolete, snapshotSlot, p) {
      CutIff(obsolete, snapshotSlot, p);
    }
    KeptIsAt(bytes, ranges, 0);
    KeptAtIsAll(|bytes|, ranges, 0);
    from := all[..|output|];
    assert forall a | 0 <= a < |all| :: all[a] in all;
    forall p: nat | p < |bytes| && !Cut(obsolete, snapshotSlot, p) && p !in from ensures forall q | q in from :: q < p {
      PrefixIsBefore(all, |output|, p);
    }
    if |output| < |all| {
      assert all[|output|] !in from;
    }
  }

  /** Reading everything delivers, in order, bytes that no obsolete account holds; `from` tells where each
      byte of the output comes from.  All such bytes are delivered if and only if, before each of them, no
      two obsolete accounts overlap, and their number is announced if and only if none overlap at all. */
  method ReadToEnd(bytes: seq<Byte>, obsolete: seq<ObsoleteAccount>, snapshotSlot: Option<Slot>, bufferSize: nat)
    returns (output: seq<Byte>, len: int, ghost from: seq<nat>)
    requires bufferSize > 0
    requires forall o | o in obsolete && (snapshotSlot.None? || o.slot <= snapshotSlot.value) :: o.offset <= |bytes|
    ensures |from| == |output| && (forall a, b | 0 <= a < b < |from| :: from[a] < from[b])
    ensures forall a | 0 <= a < |from| ::
      from[a] < |bytes| && output[a] == bytes[from[a]] && !Cut(obsolete, snapshotSlot, from[a])
    ensures forall p: nat | p < |bytes| && !Cut(obsolete, snapshotSlot, p) && p !in from ::
      forall q | q in from :: q < p
    ensures (forall p: nat | p < |bytes| && !Cut(obsolete, snapshotSlot, p) :: p in from) <==>
      forall p: nat | p < |bytes| && !Cut(obsolete, snapshotSlot, p) ::
        SharedNoneBefore(obsolete, snapshotSlot, |bytes|, p)
    ensures len == |AliveBytes(|bytes|, obsolete, snapshotSlot)| <==>
      forall i, j | 0 <= i < j < |obsolete| :: ShareNone(obsolete[i], obsolete[j], snapshotSlot, |bytes|)
    ensures (forall i, j | 0 <= i < j < |obsolete| :: ShareNone(obsolete[i], obsolete[j], snapshotSlot, |bytes|)) ==>
      len == |output| && forall p: nat | p < |bytes| && !Cut(obsolete, snapshotSlot, p) :: p in from
  {
    var reader := new Reader(bytes, obsolete, snapshotSlot);
    len := reader.Len();
    output := ReadRest(reader, bufferSize);
    DisjointIff(obsolete, snapshotSlot, |bytes|);
    from := PrefixOfKept(bytes, obsolete, snapshotSlot, output);
  }
}
