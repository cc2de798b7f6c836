/** The accounts with the largest balances, found in one scan with a heap of bounded size. */
module LargestAccounts {

  /** A key, compared by its numeric order. */
  type Key = nat

  datatype Balance = Balance(lamports: nat, key: Key)

  datatype AddressFilter = Exclude | Include

  /** What the scan delivers: the accounts in the order in which it meets them, or an error. */
  datatype Scan = Scanned(accounts: seq<Balance>) | Aborted(message: string)

  datatype Result = Ok(accounts: seq<Balance>) | Err(message: string)

  /** The order of pairs: by lamports, then by key. */
  predicate AtLeast(a: Balance, b: Balance) {
    a.lamports > b.lamports || (a.lamports == b.lamports && a.key >= b.key)
  }

  // ----- The simple form: filter, sort, take -----

  predicate Collects(b: Balance, addresses: set<Key>, filter: AddressFilter) {
    b.lamports != 0 && match filter { case Exclude => b.key !in addresses case Include => b.key in addresses }
  }

  function Collected(accounts: seq<Balance>, addresses: set<Key>, filter: AddressFilter): seq<Balance> {
    if accounts == [] then []
    else
      var n := |accounts| - 1;
      Collected(accounts[..n], addresses, filter)
      + if Collects(accounts[n], addresses, filter) then [accounts[n]] else []
  }

  ghost predicate Descending(s: seq<Balance>) { forall i, j | 0 <= i < j < |s| :: AtLeast(s[i], s[j]) }

  function Insert(s: seq<Balance>, x: Balance): (r: seq<Balance>)
    ensures |r| == |s| + 1
  {
    if s == [] then [x]
    else if AtLeast(s[0], x) then [s[0]] + Insert(s[1..], x)
    else [x] + s
  }

  function SortedDescending(s: seq<Balance>): seq<Balance> {
    if s == [] then [] else Insert(SortedDescending(s[..|s| - 1]), s[|s| - 1])
  }

  function Take(s: seq<Balance>, num: nat): seq<Balance> { if |s| <= num then s else s[..num] }

  lemma {:induction false} InsertAdds(s: seq<Balance>, x: Balance)
    ensures multiset(Insert(s, x)) == multiset(s) + multiset{x}
  {
    if s != [] {
      assert s == [s[0]] + s[1..];
      InsertAdds(s[1..], x);
    }
  }

  lemma {:induction false} InsertKeepsDescending(s: seq<Balance>, x: Balance)
    requires Descending(s)
    ensures Descending(Insert(s, x))
  {
    if s != [] && AtLeast(s[0], x) {
      var rest := Insert(s[1..], x);
      InsertKeepsDescending(s[1..], x);
      InsertAdds(s[1..], x);
      forall i | 0 <= i < |rest| ensures AtLeast(s[0], rest[i]) {
        assert rest[i] in multiset(rest);
        assert rest[i] == x || rest[i] in multiset(s[1..]);
        assert rest[i] == x || rest[i] in s[1..];
      }
    }
  }

  /** The sort is a descending permutation. */
  lemma {:induction false} SortIsDescending(s: seq<Balance>)
    ensures Descending(SortedDescending(s)) && multiset(SortedDescending(s)) == multiset(s)
  {
    if s != [] {
      var n := |s| - 1;
      SortIsDescending(s[..n]);
      InsertKeepsDescending(SortedDescending(s[..n]), s[n]);
      InsertAdds(SortedDescending(s[..n]), s[n]);
      assert s == s[..n] + [s[n]];
    }
  }

  lemma {:induction false} DescendingIsDetermined(a: seq<Balance>, b: seq<Balance>)
    requires Descending(a) && Descending(b) && multiset(a) == multiset(b)
    ensures a == b
  {
    assert |a| == |multiset(a)| == |multiset(b)| == |b|;
    if a != [] {
      assert a[0] == b[0] by {
        assert b[0] in multiset(b) && a[0] in multiset(a);
        FirstIsLargest(a, b[0]);
        FirstIsLargest(b, a[0]);
      }
      SplitFirst(a);
      SplitFirst(b);
      DescendingIsDetermined(a[1..], b[1..]);
    }
  }

  lemma FirstIsLargest(s: seq<Balance>, x: Balance)
    requires Descending(s) && x in multiset(s)
    ensures s != [] && AtLeast(s[0], x)
  {
    assert x in s;
  }

  lemma SplitFirst(s: seq<Balance>)
    requires s != []
    ensures s == [s[0]] + s[1..] && multiset(s[1..]) == multiset(s) - multiset{s[0]}
  {
    assert s == [s[0]] + s[1..];
  }

  lemma {:induction false} CollectedCounts(
    accounts: seq<Balance>, addresses: set<Key>, filter: AddressFilter, x: Balance)
    ensures multiset(Collected(accounts, addresses, filter))[x]
            == if Collects(x, addresses, filter) then multiset(accounts)[x] else 0
  {
    if accounts != [] {
      var n := |accounts| - 1;
      CollectedCounts(accounts[..n], addresses, filter, x);
      assert accounts == accounts[..n] + [accounts[n]];
    }
  }

  /** The order of the scan does not matter. */
  lemma ScanOrderDoesNotMatter(a: seq<Balance>, b: seq<Balance>, addresses: set<Key>, filter: AddressFilter)
    requires multiset(a) == multiset(b)
    ensures SortedDescending(Collected(a, addresses, filter)) == SortedDescending(Collected(b, addresses, filter))
  {
    var x, y := Collected(a, addresses, filter), Collected(b, addresses, filter);
    forall balance ensures multiset(x)[balance] == multiset(y)[balance] {
      CollectedCounts(a, addresses, filter, balance);
      CollectedCounts(b, addresses, filter, balance);
    }
    assert multiset(x) == multiset(y);
    SortIsDescending(x);
    SortIsDescending(y);
    DescendingIsDetermined(SortedDescending(x), SortedDescending(y));
  }

  // ----- The bounded heap -----

  /** Offer one more balance to a full or partly filled heap, kept here in descending order: a full
      heap drops its smallest element unless that is at least the new one. */
  function Offer(heap: seq<Balance>, num: nat, x: Balance): seq<Balance>
    requires 0 < num && |heap| <= num
  {
    if |heap| == num then
      if AtLeast(heap[num - 1], x) then heap else Insert(heap[..num - 1], x)
    else Insert(heap, x)
  }

  lemma OfferLarger(s: seq<Balance>, num: nat, x: Balance)
    requires Descending(s) && num > 0 && s != [] && !AtLeast(s[0], x)
    ensures Take([x] + s, num) == Offer(Take(s, num), num, x)
  {
    var heap := Take(s, num);
    assert heap[0] == s[0];
    if |s| >= num {
      assert heap == s[..num];
      assert num == 1 || AtLeast(s[0], heap[num - 1]);
      assert ([x] + s)[..num] == [x] + heap[..num - 1];
    }
  }

  /** The bounded heap holds the top of what a full sort would hold. */
  lemma {:induction false} OfferIsTakeOfInsert(s: seq<Balance>, num: nat, x: Balance)
    requires Descending(s) && num > 0
    ensures Take(Insert(s, x), num) == Offer(Take(s, num), num, x)
  {
    if s != [] {
      if !AtLeast(s[0], x) {
        OfferLarger(s, num, x);
      } else if num == 1 {
        assert Take(s, 1) == [s[0]];
      } else {
        var rest := s[1..];
        OfferIsTakeOfInsert(rest, num - 1, x);
        TakeCons(s[0], rest, num - 1);
        assert s == [s[0]] + rest;
        TakeCons(s[0], Insert(rest, x), num - 1);
        ConsOffer(s[0], Take(rest, num - 1), num - 1, x);
      }
    }
  }

  lemma TakeCons(first: Balance, rest: seq<Balance>, num: nat)
    ensures Take([first] + rest, num + 1) == [first] + Take(rest, num)
  {
  }

  lemma ConsOffer(first: Balance, heap: seq<Balance>, num: nat, x: Balance)
    requires 0 < num && |heap| <= num && AtLeast(first, x)
    ensures Offer([first] + heap, num + 1, x) == [first] + Offer(heap, num, x)
  {
    var all := [first] + heap;
    assert all[1..] == heap;
    if |heap| == num {
      assert all[..num][1..] == heap[..num - 1];
    }
  }

  // ----- The scan -----

  lemma CollectedStep(accounts: seq<Balance>, i: nat, addresses: set<Key>, filter: AddressFilter)
    requires i < |accounts|
    ensures var so := Collected(accounts[..i], addresses, filter);
      var now := Collected(accounts[..i + 1], addresses, filter);
      if Collects(accounts[i], addresses, filter)
      then SortedDescending(now) == Insert(SortedDescending(so), accounts[i])
      else now == so
  {
    var so := Collected(accounts[..i], addresses, filter);
    assert accounts[..i + 1][..i] == accounts[..i];
    assert (so + [accounts[i]])[..|so|] == so;
  }

  /** How often an account is among the top and among the rest of the sort. */
  lemma TopAndRest(accounts: seq<Balance>, addresses: set<Key>, filter: AddressFilter, top: seq<Balance>,
                   rest: seq<Balance>, b: Balance)
    requires top + rest == SortedDescending(Collected(accounts, addresses, filter))
    ensures multiset(top)[b] + multiset(rest)[b]
            == if Collects(b, addresses, filter) then multiset(accounts)[b] else 0
  {
    var collected := Collected(accounts, addresses, filter);
    SortIsDescending(collected);
    CollectedCounts(accounts, addresses, filter, b);
    assert multiset(top + rest) == multiset(collected);
  }

  /** What is left out is not larger than what is returned, and nothing is left out while there is room. */
  lemma LeftOutIsSmaller(accounts: seq<Balance>, num: nat, addresses: set<Key>, filter: AddressFilter,
                         top: seq<Balance>, b: Balance)
    requires top == Take(SortedDescending(Collected(accounts, addresses, filter)), num)
    requires Collects(b, addresses, filter) && multiset(top)[b] < multiset(accounts)[b]
    ensures |top| == num && forall t | t in top :: AtLeast(t, b)
  {
    var sorted := SortedDescending(Collected(accounts, addresses, filter));
    var rest := sorted[|top|..];
    assert sorted == top + rest;
    TopAndRest(accounts, addresses, filter, top, rest, b);
    assert b in multiset(rest);
    var j :| 0 <= j < |rest| && rest[j] == b;
    SortIsDescending(Collected(accounts, addresses, filter));
    forall t | t in top ensures AtLeast(t, b) {
      var i :| 0 <= i < |top| && top[i] == t;
      assert sorted[i] == t && sorted[|top| + j] == b;
    }
  }

  /** What is returned was met in the scan, as often, and passes the filter. */
  lemma TopIsCollected(accounts: seq<Balance>, num: nat, addresses: set<Key>, filter: AddressFilter, top: seq<Balance>)
    requires top == Take(SortedDescending(Collected(accounts, addresses, filter)), num)
    ensures Descending(top) && multiset(top) <= multiset(accounts)
    ensures forall b | b in top :: Collects(b, addresses, filter)
  {
    var sorted := SortedDescending(Collected(accounts, addresses, filter));
    assert sorted == top + sorted[|top|..];
    SortIsDescending(Collected(accounts, addresses, filter));
    forall b ensures multiset(top)[b] <= if Collects(b, addresses, filter) then multiset(accounts)[b] else 0 {
      TopAndRest(accounts, addresses, filter, top, sorted[|top|..], b);
    }
    forall b | b in top ensures Collects(b, addresses, filter) { assert multiset(top)[b] > 0; }
  }

  method LoadLargestAccounts(scan: Scan, num: nat, addresses: set<Key>, filter: AddressFilter) returns (result: Result)
    ensures num == 0 ==> result == Ok([])
    ensures num > 0 && scan.Aborted? ==> result == Err(scan.message)
    ensures num > 0 && scan.Scanned? ==>
      result == Ok(Take(SortedDescending(Collected(scan.accounts, addresses, filter)), num))
    ensures num > 0 && scan.Scanned? ==> result.Ok? && |result.accounts| <= num
    ensures result.Ok? ==> forall i, j | 0 <= i < j < |result.accounts| ::
      || result.accounts[i].lamports > result.accounts[j].lamports
      || (result.accounts[i].lamports == result.accounts[j].lamports
          && result.accounts[i].key >= result.accounts[j].key)
    ensures result.Ok? ==> forall b | b in result.accounts ::
      b.lamports != 0 && (b.key in addresses <==> filter.Include?)
    ensures num > 0 && scan.Scanned? ==> multiset(result.accounts) <= multiset(scan.accounts)
    ensures num > 0 && scan.Scanned? ==>
      forall b: Balance | b.lamports != 0 && (b.key in addresses <==> filter.Include?)
                 && multiset(result.accounts)[b] < multiset(scan.accounts)[b] ::
        |result.accounts| == num && forall t | t in result.accounts ::
          t.lamports > b.lamports || (t.lamports == b.lamports && t.key >= b.key)
  {
    if num == 0 {
      return Ok([]);
    }
    if scan.Aborted? {
      return Err(scan.message);
    }
    var heap := ScanWithHeap(scan.accounts, num, addresses, filter);
    TopIsCollected(scan.accounts, num, addresses, filter, heap);
    forall b: Balance | Collects(b, addresses, filter) && multiset(heap)[b] < multiset(scan.accounts)[b]
      ensures |heap| == num && forall t | t in heap :: AtLeast(t, b)
    {
      LeftOutIsSmaller(scan.accounts, num, addresses, filter, heap, b);
    }
    result := Ok(heap);
  }

  method ScanWithHeap(accounts: seq<Balance>, num: nat, addresses: set<Key>, filter: AddressFilter)
    returns (heap: seq<Balance>)
    requires num > 0
    ensures heap == Take(SortedDescending(Collected(accounts, addresses, filter)), num)
  {
    heap := [];
    for i := 0 to |accounts|
      invariant |heap| <= num
      invariant heap == Take(SortedDescending(Collected(accounts[..i], addresses, filter)), num)
    {
      var account := accounts[i];
      CollectedStep(accounts, i, addresses, filter);
      if account.lamports == 0 {
        continue;
      }
      var contains := account.key in addresses;
      var collect := match filter { case Exclude => !contains case Include => contains };
      if !collect {
        continue;
      }
      ghost var so := Collected(accounts[..i], addresses, filter);
      SortIsDescending(so);
      OfferIsTakeOfInsert(SortedDescending(so), num, account);
      if |heap| == num {
        if AtLeast(heap[num - 1], account) {
          continue;
        }
        heap := heap[..num - 1];
      }
      heap := Insert(heap, account);
    }
    assert accounts[..|accounts|] == accounts;
  }
}
