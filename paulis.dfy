/**
  Single-qubit Pauli operators in binary symplectic form, and qubit sites of
  the rotated planar lattice. This is the part of qecsim's Pauli machinery
  that the G81 code and decoder rely on: `pauli_to_bsf`/`bsf_to_pauli` for one
  qubit, and composition of operators on a site, which is XOR of the bits.
 */
module Paulis {

  /** One of the four single-qubit Paulis, in the order (I, X, Y, Z) that the
      decoder uses to index a probability distribution. */
  datatype Op = I | X | Y | Z

  /** The X part of the binary symplectic form. */
  function XBit(o: Op): bool {
    o == X || o == Y
  }

  /** The Z part of the binary symplectic form. */
  function ZBit(o: Op): bool {
    o == Z || o == Y
  }

  /** The Pauli whose binary symplectic form is (x, z). */
  function FromBits(x: bool, z: bool): (o: Op)
    ensures XBit(o) == x && ZBit(o) == z
  {
    if x && z then Y else if x then X else if z then Z else I
  }

  /** Binary symplectic form and Pauli name are inverse encodings. */
  lemma BitsRoundTrip(o: Op)
    ensures FromBits(XBit(o), ZBit(o)) == o
  {
  }

  /** A Pauli is determined by its binary symplectic form. */
  lemma BitsDetermine(p: Op, q: Op)
    requires XBit(p) == XBit(q) && ZBit(p) == ZBit(q)
    ensures p == q
  {
  }

  /** Composition of Paulis up to phase: XOR of the binary symplectic forms. */
  function Mul(a: Op, b: Op): (r: Op)
    ensures XBit(r) == (XBit(a) != XBit(b)) && ZBit(r) == (ZBit(a) != ZBit(b))
    ensures a == I ==> r == b
    ensures b == I ==> r == a
    ensures a == b ==> r == I
  {
    FromBits(XBit(a) != XBit(b), ZBit(a) != ZBit(b))
  }

  /** Composition is commutative and associative, and every Pauli is its own
      inverse, so composing a set of Paulis does not depend on the order. */
  lemma MulGroup(a: Op, b: Op, c: Op)
    ensures Mul(a, b) == Mul(b, a)
    ensures Mul(Mul(a, b), c) == Mul(a, Mul(b, c))
    ensures Mul(Mul(a, b), b) == a
  {
    BitsDetermine(Mul(a, b), Mul(b, a));
    BitsDetermine(Mul(Mul(a, b), c), Mul(a, Mul(b, c)));
    BitsDetermine(Mul(Mul(a, b), b), a);
  }

  /** Two single-qubit Paulis anticommute iff their symplectic product is 1. */
  predicate Anticommute(a: Op, b: Op) {
    (XBit(a) && ZBit(b)) != (ZBit(a) && XBit(b))
  }

  /** The symplectic product is linear in its first argument. */
  lemma AnticommuteMul(a: Op, b: Op, o: Op)
    ensures Anticommute(Mul(a, b), o) == (Anticommute(a, o) != Anticommute(b, o))
  {
  }

  /** `k` copies of `o` composed together: `o` when `k` is odd, else I. This is
      the source's `(k * P) % 2` for a leg value `k`. */
  function Power(o: Op, k: nat): (r: Op)
    ensures k % 2 == 0 ==> r == I
    ensures k % 2 == 1 ==> r == o
  {
    if k % 2 == 1 then o else I
  }

  /** Exchange the roles of X and Z (conjugation by a Hadamard). */
  function SwapXZ(o: Op): (r: Op)
    ensures XBit(r) == ZBit(o) && ZBit(r) == XBit(o)
  {
    FromBits(ZBit(o), XBit(o))
  }

  /** A qubit site or plaquette index (x, y); the origin is the lower left qubit. */
  type Index = (int, int)

  /** qecsim's `is_in_site_bounds` for site bounds (maxSiteX, maxSiteY). */
  predicate InSiteBounds(s: Index, maxSiteX: int, maxSiteY: int) {
    0 <= s.0 <= maxSiteX && 0 <= s.1 <= maxSiteY
  }

  /** Every site of the lattice. */
  function Sites(maxSiteX: int, maxSiteY: int): (r: set<Index>)
    ensures forall s :: s in r <==> InSiteBounds(s, maxSiteX, maxSiteY)
  {
    set x, y | 0 <= x <= maxSiteX && 0 <= y <= maxSiteY :: (x, y)
  }
}
