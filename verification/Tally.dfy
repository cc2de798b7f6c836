/** Sums of account hashes and data lengths over sets of stored accounts. */
module Tally {
  import opened Types
  import opened Rebuild
  import LtHash

  type Place = (Slot, Pubkey)

  /** The hash of a non-zero-lamport account, a function of the key and the account. */
  type Digest = (Pubkey, Account) -> LtHash.Hash

  datatype Tally = Tally(hash: LtHash.Hash, dataLen: nat)

  function Zero(): Tally { Tally(LtHash.Identity(), 0) }

  function Plus(a: Tally, b: Tally): Tally { Tally(LtHash.MixedIn(a.hash, b.hash), a.dataLen + b.dataLen) }

  lemma PlusLaws(a: Tally, b: Tally, c: Tally)
    ensures Plus(a, b) == Plus(b, a)
    ensures Plus(Plus(a, b), c) == Plus(a, Plus(b, c))
    ensures Plus(a, Zero()) == a && Plus(Zero(), a) == a
  {
    LtHash.MixCommutes(a.hash, b.hash);
    LtHash.MixAssociates(a.hash, b.hash, c.hash);
    LtHash.MixIdentity(a.hash);
  }

  /** Add a part to a running total, mixing its hash in. */
  method Accumulate(total: Tally, part: Tally) returns (r: Tally)
    ensures r == Plus(total, part)
  {
    var hash := LtHash.Mix(total.hash, part.hash);
    r := Tally(hash, total.dataLen + part.dataLen);
  }

  /** What an account contributes: a zero-lamport account contributes nothing. */
  function Contribution(digest: Digest, k: Pubkey, account: Account): Tally {
    if account.IsZeroLamport() then Zero() else Tally(digest(k, account), |account.data|)
  }

  predicate Holds(files: Files, p: Place) { p.0 in files && p.1 in files[p.0] }

  function Weight(files: Files, digest: Digest, p: Place): Tally {
    if Holds(files, p) then Contribution(digest, p.1, files[p.0][p.1]) else Zero()
  }

  ghost function Sum(files: Files, digest: Digest, places: set<Place>): Tally {
    if places == {} then Zero()
    else
      var p :| p in places;
      Plus(Weight(files, digest, p), Sum(files, digest, places - {p}))
  }

  /** The sum does not depend on the order of summation. */
  lemma {:induction false} SumSplits(files: Files, digest: Digest, places: set<Place>, p: Place)
    requires p in places
    ensures Sum(files, digest, places) == Plus(Weight(files, digest, p), Sum(files, digest, places - {p}))
    decreases places
  {
    var q :|
      && q in places
      && Sum(files, digest, places) == Plus(Weight(files, digest, q), Sum(files, digest, places - {q}));
    if q != p {
      SumSplits(files, digest, places - {q}, p);
      SumSplits(files, digest, places - {p}, q);
      assert places - {q} - {p} == places - {p} - {q};
      var wp, wq, rest := Weight(files, digest, p), Weight(files, digest, q), Sum(files, digest, places - {p} - {q});
      PlusLaws(wq, wp, rest);
      PlusLaws(wp, wq, rest);
    }
  }

  lemma SumAdds(files: Files, digest: Digest, places: set<Place>, p: Place)
    requires p !in places
    ensures Sum(files, digest, places + {p}) == Plus(Sum(files, digest, places), Weight(files, digest, p))
  {
    SumSplits(files, digest, places + {p}, p);
    assert places + {p} - {p} == places;
    PlusLaws(Weight(files, digest, p), Sum(files, digest, places), Zero());
  }

  lemma {:induction false} SumUnion(files: Files, digest: Digest, a: set<Place>, b: set<Place>)
    requires a !! b
    ensures Sum(files, digest, a + b) == Plus(Sum(files, digest, a), Sum(files, digest, b))
    decreases b
  {
    if b == {} {
      assert a + b == a;
      PlusLaws(Sum(files, digest, a), Zero(), Zero());
    } else {
      var p :| p in b;
      SumUnion(files, digest, a, b - {p});
      assert a + b == a + (b - {p}) + {p};
      SumAdds(files, digest, a + (b - {p}), p);
      assert b == b - {p} + {p};
      SumAdds(files, digest, b - {p}, p);
      PlusLaws(Sum(files, digest, a), Sum(files, digest, b - {p}), Weight(files, digest, p));
    }
  }

  // ----- Sums over accounts -----

  ghost function AccountsTally(accounts: map<Pubkey, Account>, digest: Digest): Tally {
    if accounts == map[] then Zero()
    else
      var k :| k in accounts;
      Plus(Contribution(digest, k, accounts[k]), AccountsTally(accounts - {k}, digest))
  }

  lemma {:induction false} AccountsTallySplits(accounts: map<Pubkey, Account>, digest: Digest, k: Pubkey)
    requires k in accounts
    ensures AccountsTally(accounts, digest)
         == Plus(Contribution(digest, k, accounts[k]), AccountsTally(accounts - {k}, digest))
    decreases |accounts|
  {
    var c :|
      && c in accounts
      && AccountsTally(accounts, digest)
         == Plus(Contribution(digest, c, accounts[c]), AccountsTally(accounts - {c}, digest));
    if c != k {
      AccountsTallySplits(accounts - {c}, digest, k);
      AccountsTallySplits(accounts - {k}, digest, c);
      assert accounts - {c} - {k} == accounts - {k} - {c};
      var ck, cc := Contribution(digest, k, accounts[k]), Contribution(digest, c, accounts[c]);
      var rest := AccountsTally(accounts - {k} - {c}, digest);
      PlusLaws(cc, ck, rest);
      PlusLaws(ck, cc, rest);
    }
  }

  lemma AccountsTallyAdds(accounts: map<Pubkey, Account>, digest: Digest, k: Pubkey, account: Account)
    requires k !in accounts
    ensures AccountsTally(accounts[k := account], digest)
         == Plus(AccountsTally(accounts, digest), Contribution(digest, k, account))
  {
    AccountsTallySplits(accounts[k := account], digest, k);
    assert accounts[k := account] - {k} == accounts;
    PlusLaws(Contribution(digest, k, account), AccountsTally(accounts, digest), Zero());
  }
}
