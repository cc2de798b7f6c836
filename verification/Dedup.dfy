/** Sorting accounts by key and keeping only the last one of each key, in place. */
module Dedup {
  import opened Types

  /** An account as found in a storage; keys are compared by their numeric order. */
  datatype StoredAccount = StoredAccount(key: nat, offset: nat)

  ghost predicate SortedByKey(s: seq<StoredAccount>) { forall i, j | 0 <= i < j < |s| :: s[i].key <= s[j].key }

  ghost predicate StrictlySorted(s: seq<StoredAccount>) { forall i, j | 0 <= i < j < |s| :: s[i].key < s[j].key }

  /** The last account with key `k`. */
  function LastOf(s: seq<StoredAccount>, k: nat): Option<StoredAccount> {
    if s == [] then None
    else if s[|s| - 1].key == k then Some(s[|s| - 1])
    else LastOf(s[..|s| - 1], k)
  }

  // ----- The stable sort -----

  /** Put an account behind those with the same or a smaller key. */
  function Insert(s: seq<StoredAccount>, x: StoredAccount): (r: seq<StoredAccount>)
    ensures |r| == |s| + 1 && forall y :: y in r <==> y == x || y in s
  {
    if s == [] || s[|s| - 1].key <= x.key then s + [x]
    else Insert(s[..|s| - 1], x) + [s[|s| - 1]]
  }

  function StableSorted(s: seq<StoredAccount>): (r: seq<StoredAccount>)
    ensures |r| == |s|
  {
    if s == [] then [] else Insert(StableSorted(s[..|s| - 1]), s[|s| - 1])
  }

  lemma {:induction false} InsertKeepsSorted(s: seq<StoredAccount>, x: StoredAccount)
    requires SortedByKey(s)
    ensures SortedByKey(Insert(s, x))
  {
    if s != [] && s[|s| - 1].key > x.key {
      var front := Insert(s[..|s| - 1], x);
      InsertKeepsSorted(s[..|s| - 1], x);
      forall i | 0 <= i < |front| ensures front[i].key <= s[|s| - 1].key {
        assert front[i] in front;
      }
    }
  }

  lemma {:induction false} InsertLast(s: seq<StoredAccount>, x: StoredAccount, k: nat)
    requires SortedByKey(s)
    ensures LastOf(Insert(s, x), k) == if k == x.key then Some(x) else LastOf(s, k)
  {
    var n := |s| - 1;
    if s == [] || s[n].key <= x.key {
      assert (s + [x])[..|s|] == s;
    } else {
      InsertLast(s[..n], x, k);
      var r := Insert(s[..n], x) + [s[n]];
      assert r[..|r| - 1] == Insert(s[..n], x);
    }
  }

  /** The sort is stable: it does not change which account is the last of its key. */
  lemma {:induction false} SortIsStable(s: seq<StoredAccount>)
    ensures SortedByKey(StableSorted(s))
    ensures forall k :: LastOf(StableSorted(s), k) == LastOf(s, k)
  {
    if s != [] {
      var n := |s| - 1;
      SortIsStable(s[..n]);
      InsertKeepsSorted(StableSorted(s[..n]), s[n]);
      forall k ensures LastOf(StableSorted(s), k) == LastOf(s, k) {
        InsertLast(StableSorted(s[..n]), s[n], k);
      }
    }
  }

  // ----- Keeping the last of each run -----

  function KeepLast(s: seq<StoredAccount>): (r: seq<StoredAccount>)
    ensures |r| <= |s| && (s != [] ==> r != [] && r[|r| - 1] == s[|s| - 1])
  {
    if s == [] then []
    else
      var x, front := s[|s| - 1], KeepLast(s[..|s| - 1]);
      if front != [] && front[|front| - 1].key == x.key then front[..|front| - 1] + [x] else front + [x]
  }

  lemma {:induction false} KeepLastIsStrict(s: seq<StoredAccount>)
    requires SortedByKey(s)
    ensures StrictlySorted(KeepLast(s))
    ensures forall i | 0 <= i < |KeepLast(s)| :: s != [] && KeepLast(s)[i].key <= s[|s| - 1].key
  {
    if s != [] {
      var front := s[..|s| - 1];
      KeepLastIsStrict(front);
    }
  }

  lemma {:induction false} KeepLastLast(s: seq<StoredAccount>, k: nat)
    requires SortedByKey(s)
    ensures LastOf(KeepLast(s), k) == LastOf(s, k)
  {
    if s != [] {
      var x, rest := s[|s| - 1], s[..|s| - 1];
      var front := KeepLast(rest);
      KeepLastLast(rest, k);
      if front != [] && front[|front| - 1].key == x.key {
        assert (front[..|front| - 1] + [x])[..|front| - 1] == front[..|front| - 1];
      } else {
        assert (front + [x])[..|front|] == front;
      }
    }
  }

  /** In a strictly sorted list an account is the last of its key exactly when it is there. */
  lemma {:induction false} LastInStrict(r: seq<StoredAccount>, x: StoredAccount)
    requires StrictlySorted(r)
    ensures x in r <==> LastOf(r, x.key) == Some(x)
  {
    if r != [] {
      LastInStrict(r[..|r| - 1], x);
      assert r == r[..|r| - 1] + [r[|r| - 1]];
    }
  }

  /** What the in-place deduplication has to produce: strictly sorted, and holding exactly the last
      account of each key. */
  ghost predicate Deduplicated(s: seq<StoredAccount>, r: seq<StoredAccount>) {
    && StrictlySorted(r)
    && forall x :: x in r <==> LastOf(s, x.key) == Some(x)
  }

  lemma KeepLastDeduplicates(s: seq<StoredAccount>)
    ensures Deduplicated(s, KeepLast(StableSorted(s)))
  {
    var sorted := StableSorted(s);
    SortIsStable(s);
    KeepLastIsStrict(sorted);
    forall x ensures x in KeepLast(sorted) <==> LastOf(s, x.key) == Some(x) {
      LastInStrict(KeepLast(sorted), x);
      KeepLastLast(sorted, x.key);
    }
  }

  /** The account is there, and none after it has the same key. */
  ghost predicate IsLast(s: seq<StoredAccount>, x: StoredAccount) {
    exists i | 0 <= i < |s| :: s[i] == x && forall j | i < j < |s| :: s[j].key != x.key
  }

  lemma {:induction false} LastOfIff(s: seq<StoredAccount>, x: StoredAccount)
    ensures LastOf(s, x.key) == Some(x) <==> IsLast(s, x)
  {
    if s != [] {
      var n := |s| - 1;
      LastOfIff(s[..n], x);
      if s[n].key != x.key {
        if i :| 0 <= i < n && s[..n][i] == x && forall j | i < j < n :: s[..n][j].key != x.key {
          assert s[i] == x && forall j | i < j < n :: s[..n][j] == s[j];
        }
        if i :| 0 <= i < |s| && s[i] == x && forall j | i < j < |s| :: s[j].key != x.key {
          assert s[..n][i] == x;
        }
      } else {
        assert s[n] == x ==> IsLast(s, x);
      }
    }
  }

  lemma LastAreKept(s: seq<StoredAccount>, r: seq<StoredAccount>)
    requires Deduplicated(s, r)
    ensures forall x :: x in r <==> IsLast(s, x)
  {
    forall x ensures x in r <==> IsLast(s, x) { LastOfIff(s, x); }
  }

  /** Only one list meets the requirement. */
  lemma {:induction false} DeduplicatedIsUnique(s: seq<StoredAccount>, a: seq<StoredAccount>, b: seq<StoredAccount>)
    requires Deduplicated(s, a) && Deduplicated(s, b)
    ensures a == b
  {
    StrictIsDetermined(a, b);
  }

  lemma WithoutLast(a: seq<StoredAccount>)
    requires StrictlySorted(a) && a != []
    ensures forall y :: y in a[..|a| - 1] <==> y in a && y != a[|a| - 1]
  {
    assert a == a[..|a| - 1] + [a[|a| - 1]];
  }

  lemma {:induction false} StrictIsDetermined(a: seq<StoredAccount>, b: seq<StoredAccount>)
    requires StrictlySorted(a) && StrictlySorted(b) && forall x :: x in a <==> x in b
    ensures a == b
  {
    if a == [] {
      assert forall i | 0 <= i < |b| :: b[i] in b;
    } else {
      var n, m := |a| - 1, |b| - 1;
      assert a[n] in a && a[n] in b;
      assert b[m] in b && b[m] in a;
      assert a[n] == b[m];
      var x := a[n];
      WithoutLast(a);
      WithoutLast(b);
      assert forall y :: y in a[..n] <==> y in a && y != x;
      assert forall y :: y in b[..m] <==> y in b && y != x;
      StrictIsDetermined(a[..n], b[..m]);
      assert a == a[..n] + [x] && b == b[..m] + [x];
    }
  }

  // ----- In place -----

  method Sort(a: array<StoredAccount>)
    modifies a
    ensures a[..] == StableSorted(old(a[..]))
  {
    var sorted := StableSorted(a[..]);
    for i := 0 to a.Length
      invariant forall j | 0 <= j < i :: a[j] == sorted[j]
    {
      a[i] := sorted[i];
    }
  }

  lemma KeepLastStep(s: seq<StoredAccount>, n: nat)
    requires 0 < n < |s|
    ensures var kept := KeepLast(s[..n]);
      KeepLast(s[..n + 1]) == (if s[n].key == s[n - 1].key then kept[..|kept| - 1] else kept) + [s[n]]
  {
    assert s[..n + 1][..n] == s[..n];
  }

  lemma KeepLastOfShort(s: seq<StoredAccount>)
    requires |s| <= 1
    ensures KeepLast(s) == s
  {
    if s != [] {
      assert s[..0] == [] && KeepLast(s[..0]) == [];
    }
  }

  /** Put the account at the read cursor behind the written ones, or in place of the last of them when
      that has the same key. */
  method Place(a: array<StoredAccount>, last: nat, curr: nat) returns (last': nat)
    requires last < curr < a.Length
    modifies a
    ensures last <= last' <= curr
    ensures a[..last' + 1] == old((if a[curr].key == a[last].key then a[..last] else a[..last + 1]) + [a[curr]])
    ensures forall i | curr < i < a.Length :: a[i] == old(a[i])
  {
    last' := last;
    if a[curr].key != a[last].key {
      last' := last + 1;
    }
    a[last'] := a[curr];
  }

  /** Move the last account of each run to the front, with one cursor for reading and one for writing. */
  method RemoveDups(a: array<StoredAccount>) returns (len: nat)
    requires a.Length > 1
    modifies a
    ensures len <= a.Length && a[..len] == KeepLast(old(a[..]))
  {
    ghost var s := a[..];
    var last, curr := 0, 1;
    assert KeepLast(s[..1]) == a[..1] by { assert s[..1][..0] == []; }
    while curr < a.Length
      invariant last < curr <= a.Length
      invariant a[..last + 1] == KeepLast(s[..curr])
      invariant forall i | curr <= i < a.Length :: a[i] == s[i]
    {
      KeepLastStep(s, curr);
      ghost var kept := a[..last + 1];
      assert kept[..last] == a[..last] && a[curr] == s[curr] && a[last] == s[curr - 1];
      last := Place(a, last, curr);
      assert a[..last + 1] == KeepLast(s[..curr + 1]);
      curr := curr + 1;
    }
    assert s[..curr] == s;
    len := last + 1;
  }

  /** Sort and deduplicate; the first `len` elements remain and `dropped` were removed. */
  method SortAndRemoveDups(a: array<StoredAccount>) returns (len: nat, dropped: nat)
    modifies a
    ensures len <= a.Length && Deduplicated(old(a[..]), a[..len])
    ensures dropped == a.Length - len
    ensures forall x :: x in a[..len] <==> IsLast(old(a[..]), x)
  {
    Sort(a);
    len := a.Length;
    ghost var sorted := a[..];
    if a.Length > 1 {
      len := RemoveDups(a);
    } else {
      KeepLastOfShort(sorted);
      assert a[..len] == sorted;
    }
    dropped := a.Length - len;
    KeepLastDeduplicates(old(a[..]));
    LastAreKept(old(a[..]), a[..len]);
  }
}
