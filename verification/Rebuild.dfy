/** What a restart reads back from a set of storages: for every key the version in
    the highest slot counts, and a zero-lamport version means the account is absent. */
module Rebuild {
  import opened Types

  /** The accounts in each slot's storage.  A storage holds an account at most once. */
  type Files = map<Slot, map<Pubkey, Account>>

  /** The slots whose storage holds key `k`. */
  function Holders(files: Files, k: Pubkey): set<Slot> {
    set s | s in files && k in files[s]
  }

  lemma {:induction false} MaxExists(s: set<nat>)
    requires s != {}
    ensures exists m :: m in s && forall x | x in s :: x <= m
  {
    var x :| x in s;
    var rest := s - {x};
    if rest == {} {
      assert s == {x};
    } else {
      MaxExists(rest);
      var m :| m in rest && forall y | y in rest :: y <= m;
      var top := if x <= m then m else x;
      forall y | y in s ensures y <= top {
        assert y == x || y in rest;
      }
      assert top in s;
    }
  }

  function MaxOf(s: set<nat>): (m: nat)
    requires s != {}
    ensures m in s && forall x | x in s :: x <= m
  {
    MaxExists(s);
    var m :| m in s && forall x | x in s :: x <= m;
    m
  }

  /** The newest version of `k`, or nothing when there is none or it has zero lamports. */
  function Live(files: Files, k: Pubkey): Option<Account> {
    if Holders(files, k) == {} then None
    else
      var account := files[MaxOf(Holders(files, k))][k];
      if account.IsZeroLamport() then None else Some(account)
  }

  /** The storages found when a full snapshot of slot `snapshotSlot` is combined with an
      incremental snapshot, which carries the storages of all later slots. */
  function Restore(full: Files, current: Files, snapshotSlot: Slot): Files {
    map s | s in full.Keys + current.Keys && (if s <= snapshotSlot then s in full else s in current) ::
      if s <= snapshotSlot then full[s] else current[s]
  }

  /** An account is read back if and only if it has lamports and is the key's version in the highest slot. */
  lemma LiveIff(files: Files, k: Pubkey, account: Account)
    ensures Live(files, k) == Some(account) <==>
      && account.lamports > 0
      && exists s | s in files ::
           k in files[s] && files[s][k] == account && forall t | t in files && k in files[t] :: t <= s
  {
    if s :| s in files && k in files[s] && files[s][k] == account && forall t | t in files && k in files[t] :: t <= s {
      assert s in Holders(files, k);
      assert MaxOf(Holders(files, k)) in files;
    }
    if Live(files, k) == Some(account) {
      var s := MaxOf(Holders(files, k));
      forall t | t in files && k in files[t] ensures t <= s { assert t in Holders(files, k); }
      assert s in files && k in files[s];
    }
  }

  /** Up to the slot of the full snapshot its storages are found, after it the current ones. */
  lemma RestoreIff(full: Files, current: Files, snapshotSlot: Slot, s: Slot)
    ensures s in Restore(full, current, snapshotSlot) <==>
      (s <= snapshotSlot && s in full) || (s > snapshotSlot && s in current)
    ensures s <= snapshotSlot && s in full ==> Restore(full, current, snapshotSlot)[s] == full[s]
    ensures s > snapshotSlot && s in current ==> Restore(full, current, snapshotSlot)[s] == current[s]
  {
  }

  /** `pruned` is `files` with some storages removed. */
  ghost predicate Prunes(files: Files, pruned: Files) {
    forall s | s in pruned :: s in files && pruned[s] == files[s]
  }

  /** Removing storages is harmless for `k` when its newest version stays, or when that
      version has zero lamports and every version goes. */
  ghost predicate HarmlessFor(files: Files, pruned: Files, k: Pubkey) {
    Holders(files, k) == {} ||
    var newest := MaxOf(Holders(files, k));
    newest in pruned || (files[newest][k].IsZeroLamport() && Holders(pruned, k) == {})
  }

  lemma PruneKeepsLive(files: Files, pruned: Files, k: Pubkey)
    requires Prunes(files, pruned) && HarmlessFor(files, pruned, k)
    ensures Live(pruned, k) == Live(files, k)
  {
    assert Holders(pruned, k) <= Holders(files, k);
    if Holders(files, k) != {} && MaxOf(Holders(files, k)) in pruned {
      assert MaxOf(Holders(files, k)) in Holders(pruned, k);
    }
  }

  /** The same for a restart from an arbitrary earlier full snapshot and the storages after
      it: versions that are removed completely must lie in the full snapshot's range. */
  lemma PruneKeepsRestored(full: Files, files: Files, pruned: Files, snapshotSlot: Slot, k: Pubkey)
    requires Prunes(files, pruned)
    requires Holders(files, k) == {} || MaxOf(Holders(files, k)) in pruned
             || MaxOf(Holders(files, k)) <= snapshotSlot
    ensures Live(Restore(full, pruned, snapshotSlot), k) == Live(Restore(full, files, snapshotSlot), k)
  {
    var before := Restore(full, files, snapshotSlot);
    var after := Restore(full, pruned, snapshotSlot);
    assert Prunes(before, after);
    if Holders(before, k) != {} {
      var newest := MaxOf(Holders(before, k));
      assert newest in after by {
        if newest > snapshotSlot {
          assert newest in Holders(files, k);
          assert MaxOf(Holders(files, k)) in Holders(before, k);
        }
      }
      assert HarmlessFor(before, after, k);
    }
    PruneKeepsLive(before, after, k);
  }
}
