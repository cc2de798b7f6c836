/** The values shared by the modules of the accounts database. */
module Types {

  /** A slot number.  The sources use `u64`; no slot arithmetic here depends on the width. */
  type Slot = nat

  /** A public key.  The modules that do not order keys only compare them for equality. */
  type Pubkey(==, !new)

  datatype Option<+T> = None | Some(value: T)

  /** The parts of an account that the storage engine looks at. */
  datatype Account = Account(lamports: nat, data: seq<bv8>)
  {
    predicate IsZeroLamport() { lamports == 0 }
  }

  /** `true` when `slot` does not exceed an optional inclusive bound. */
  predicate WithinBound(slot: Slot, bound: Option<Slot>) {
    bound.None? || slot <= bound.value
  }

  /** The bound up to which versions may be cleaned: the proposed one, lowered to the oldest root
      that an ongoing scan still reads. */
  function MaxCleanRoot(minScanRoot: Option<Slot>, proposed: Option<Slot>): (bound: Option<Slot>)
    ensures forall s :: WithinBound(s, bound) <==> WithinBound(s, proposed) && WithinBound(s, minScanRoot)
    ensures bound == proposed || bound == minScanRoot
    ensures bound.None? <==> proposed.None? && minScanRoot.None?
    ensures proposed.Some? ==> bound.value <= proposed.value
    ensures minScanRoot.Some? ==> bound.value <= minScanRoot.value
  {
    match (minScanRoot, proposed)
    case (None, None) => None
    case (Some(scan), None) => Some(scan)
    case (None, Some(clean)) => Some(clean)
    case (Some(scan), Some(clean)) => Some(if scan < clean then scan else clean)
  }

  predicate Distinct<T(==)>(s: seq<T>) { forall i, j | 0 <= i < j < |s| :: s[i] != s[j] }
}
