/** Digests and the hash that combines them.

    A digest is its side bit (bit 0x80 of the first word) and everything else.  The hash function is
    a parameter of the whole development: nothing is assumed of it except where a statement says
    `CollisionFree` or `NeverZero`. */
module Digests {

  datatype Body = Zeroes | Opaque(tag: nat) | Pair(left: Digest, right: Digest)

  datatype Digest = Digest(rightSide: bool, body: Body)

  type HashFn = (Digest, Digest) -> Digest

  // `digest_type()`
  const ZERO := Digest(false, Zeroes)

  function MakeCanonicalLeft(d: Digest): Digest { d.(rightSide := false) }

  function MakeCanonicalRight(d: Digest): Digest { d.(rightSide := true) }

  predicate IsCanonicalLeft(d: Digest) { !d.rightSide }

  /** `digest_type::hash(make_canonical_pair(l, r))` */
  function Combine(h: HashFn, l: Digest, r: Digest): Digest {
    h(MakeCanonicalLeft(l), MakeCanonicalRight(r))
  }

  /** Equal up to the side bit. */
  predicate Same(a: Digest, b: Digest) { a.body == b.body }

  /** Injectivity up to the side bit of the result, which every caller may overwrite. */
  ghost predicate CollisionFree(h: HashFn) {
    forall a, b, c, d :: Same(h(a, b), h(c, d)) ==> a == c && b == d
  }

  ghost predicate NeverZero(h: HashFn) {
    forall a, b :: h(a, b) != ZERO
  }

  lemma {:induction false} CombineInjective(h: HashFn, a: Digest, b: Digest, c: Digest, d: Digest)
    requires CollisionFree(h) && Same(Combine(h, a, b), Combine(h, c, d))
    ensures Same(a, c) && Same(b, d)
  {
    assert MakeCanonicalLeft(a) == MakeCanonicalLeft(c);
    assert MakeCanonicalRight(b) == MakeCanonicalRight(d);
  }

  /** Both hypotheses can be met at once, whatever the side bit of a hash depends on. */
  lemma {:induction false} SymbolicHashMeetsBoth(side: (Digest, Digest) -> bool)
    ensures exists h: HashFn :: CollisionFree(h) && NeverZero(h) && forall a, b :: h(a, b).rightSide == side(a, b)
  {
    var h: HashFn := (a, b) => Digest(side(a, b), Pair(a, b));
    assert CollisionFree(h) && NeverZero(h);
  }
}
