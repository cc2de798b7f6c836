/** The lattice hash: 1024 numbers of 16 bits, mixed in and out with wrap-around.  It is a
    commutative group, so a set of accounts has one hash whatever the order of mixing. */
module LtHash {

  const NUM_ELEMENTS: nat := 1024

  type Word = w: int | 0 <= w < 0x1_0000

  function WrappingAdd(a: Word, b: Word): (r: Word)
    ensures r == (a + b) % 0x1_0000
  {
    if a + b < 0x1_0000 then a + b else a + b - 0x1_0000
  }

  function WrappingSub(a: Word, b: Word): (r: Word)
    ensures r == (a - b) % 0x1_0000
  {
    if b <= a then a - b else a - b + 0x1_0000
  }

  type Hash = h: seq<Word> | |h| == NUM_ELEMENTS witness seq(NUM_ELEMENTS, _ => 0)

  function Identity(): Hash { seq(NUM_ELEMENTS, _ => 0) }

  function MixedIn(a: Hash, b: Hash): (r: Hash) {
    seq(NUM_ELEMENTS, i requires 0 <= i < NUM_ELEMENTS => WrappingAdd(a[i], b[i]))
  }

  function MixedOut(a: Hash, b: Hash): (r: Hash) {
    seq(NUM_ELEMENTS, i requires 0 <= i < NUM_ELEMENTS => WrappingSub(a[i], b[i]))
  }

  /** `mix_in`, in place. */
  method MixIn(self: array<Word>, other: array<Word>)
    requires self.Length == NUM_ELEMENTS && other.Length == NUM_ELEMENTS && self != other
    modifies self
    ensures self[..] == MixedIn(old(self[..]), other[..])
    ensures forall i | 0 <= i < NUM_ELEMENTS :: self[i] == (old(self[i]) as int + other[i] as int) % 0x1_0000
  {
    for i := 0 to self.Length
      invariant forall j | 0 <= j < i :: self[j] == WrappingAdd(old(self[j]), other[j])
      invariant forall j | i <= j < self.Length :: self[j] == old(self[j])
    {
      self[i] := WrappingAdd(self[i], other[i]);
    }
  }

  /** `mix_out`, in place. */
  method MixOut(self: array<Word>, other: array<Word>)
    requires self.Length == NUM_ELEMENTS && other.Length == NUM_ELEMENTS && self != other
    modifies self
    ensures self[..] == MixedOut(old(self[..]), other[..])
    ensures forall i | 0 <= i < NUM_ELEMENTS :: self[i] == (old(self[i]) as int - other[i] as int) % 0x1_0000
  {
    for i := 0 to self.Length
      invariant forall j | 0 <= j < i :: self[j] == WrappingSub(old(self[j]), other[j])
      invariant forall j | i <= j < self.Length :: self[j] == old(self[j])
    {
      self[i] := WrappingSub(self[i], other[i]);
    }
  }

  /** Mix `b` into a copy of `a`. */
  method Mix(a: Hash, b: Hash) returns (r: Hash)
    ensures r == MixedIn(a, b)
  {
    var self := new Word[NUM_ELEMENTS](i requires 0 <= i < NUM_ELEMENTS => a[i]);
    var other := new Word[NUM_ELEMENTS](i requires 0 <= i < NUM_ELEMENTS => b[i]);
    assert self[..] == a && other[..] == b;
    MixIn(self, other);
    r := self[..];
  }

  /** Mix `b` out of a copy of `a`. */
  method Unmix(a: Hash, b: Hash) returns (r: Hash)
    ensures r == MixedOut(a, b)
  {
    var self := new Word[NUM_ELEMENTS](i requires 0 <= i < NUM_ELEMENTS => a[i]);
    var other := new Word[NUM_ELEMENTS](i requires 0 <= i < NUM_ELEMENTS => b[i]);
    assert self[..] == a && other[..] == b;
    MixOut(self, other);
    r := self[..];
  }

  lemma MixCommutes(a: Hash, b: Hash)
    ensures MixedIn(a, b) == MixedIn(b, a)
  {
    forall i | 0 <= i < NUM_ELEMENTS ensures MixedIn(a, b)[i] == MixedIn(b, a)[i] {}
  }

  lemma MixAssociates(a: Hash, b: Hash, c: Hash)
    ensures MixedIn(MixedIn(a, b), c) == MixedIn(a, MixedIn(b, c))
  {
    forall i | 0 <= i < NUM_ELEMENTS
      ensures MixedIn(MixedIn(a, b), c)[i] == MixedIn(a, MixedIn(b, c))[i] {}
  }

  lemma MixIdentity(a: Hash)
    ensures MixedIn(a, Identity()) == a && MixedIn(Identity(), a) == a
  {
    forall i | 0 <= i < NUM_ELEMENTS ensures MixedIn(a, Identity())[i] == a[i] {}
  }

  lemma MixOutUndoes(a: Hash, b: Hash)
    ensures MixedOut(MixedIn(a, b), b) == a && MixedIn(MixedOut(a, b), b) == a
  {
    forall i | 0 <= i < NUM_ELEMENTS ensures MixedOut(MixedIn(a, b), b)[i] == a[i] {}
    forall i | 0 <= i < NUM_ELEMENTS ensures MixedIn(MixedOut(a, b), b)[i] == a[i] {}
  }
}
