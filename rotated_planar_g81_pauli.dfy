/**
  A Pauli operator on the rotated planar G81 lattice, changed in place by
  site, plaquette and logical operators. The operator is kept as a map from
  every in-bounds site to its single-qubit Pauli; qecsim keeps the same
  information as a binary symplectic vector.
 */
module G81Pauli {
  import opened Paulis
  import opened G81Code

  /** True iff s is one of the four corners of the plaquette indexed by p
      (its lower left corner is the site p). */
  predicate IsCorner(p: Index, s: Index) {
    (s.0 == p.0 || s.0 == p.0 + 1) && (s.1 == p.1 || s.1 == p.1 + 1)
  }

  /** The Pauli a plaquette of the given kind applies at site s: its west
      corners get one of X and Z, its east corners the other, and no other
      site is touched. */
  function CornerOp(kind: PlaquetteKind, p: Index, s: Index): (o: Op)
    ensures o != I <==> IsCorner(p, s)
    ensures o != Y
    ensures IsCorner(p, s) && s.0 == p.0 ==> (o == Z <==> kind == ZxZx)
    ensures IsCorner(p, s) && s.0 == p.0 + 1 ==> (o == X <==> kind == ZxZx)
  {
    if s.0 == p.0 && (s.1 == p.1 || s.1 == p.1 + 1) then
      (if kind == ZxZx then Z else X)
    else if s.0 == p.0 + 1 && (s.1 == p.1 || s.1 == p.1 + 1) then
      (if kind == ZxZx then X else Z)
    else I
  }

  /** The two kinds of plaquette differ exactly by exchanging X and Z. */
  lemma CornerOpKindsSwap(p: Index, s: Index)
    ensures CornerOp(XzXz, p, s) == SwapXZ(CornerOp(ZxZx, p, s))
  {
    var a, b := CornerOp(XzXz, p, s), SwapXZ(CornerOp(ZxZx, p, s));
    BitsDetermine(a, b);
  }

  /** The operator of the plaquette at p, at site s. */
  function PlaquetteOp(p: Index, s: Index): Op {
    CornerOp(PlaquetteType(p), p, s)
  }

  /** The operator `plaquette` applies as written, with its type test on the
      parity of x - y. */
  function PlaquetteOpAsWritten(p: Index, s: Index): Op {
    CornerOp(PlaquetteTypeAsWritten(p), p, s)
  }

  /** The operator `logical_x` applies, at site s: X at even x and Z at odd x
      along the bottom row. */
  function LogicalXOp(maxSiteX: int, s: Index): (o: Op)
    ensures o != I <==> s.1 == 0 && 0 <= s.0 <= maxSiteX
    ensures o != I ==> (o == X <==> s.0 % 2 == 0) && o != Y
  {
    if s.1 == 0 && 0 <= s.0 <= maxSiteX then (if s.0 % 2 == 0 then X else Z) else I
  }

  /** The operator `logical_z` applies, at site s: Z along the rightmost column. */
  function LogicalZOp(maxSiteX: int, maxSiteY: int, s: Index): (o: Op)
    ensures o != I <==> s.0 == maxSiteX && 0 <= s.1 <= maxSiteY
    ensures o == I || o == Z
  {
    if s.0 == maxSiteX && 0 <= s.1 <= maxSiteY then Z else I
  }

  class RotatedPlanarG81Pauli {
    /** The code's `site_bounds`. */
    const maxSiteX: int
    const maxSiteY: int
    /** The code's `is_in_plaquette_bounds`, a qecsim member. */
    const isInPlaquetteBounds: Index -> bool
    /** The single-qubit Pauli on every site of the lattice. */
    var ops: map<Index, Op>

    ghost predicate Valid()
      reads this
    {
      ops.Keys == Sites(maxSiteX, maxSiteY)
    }

    /** `code.new_pauli()`: the identity on every site. */
    constructor (maxSiteX: int, maxSiteY: int, isInPlaquetteBounds: Index -> bool)
      ensures Valid()
      ensures this.maxSiteX == maxSiteX && this.maxSiteY == maxSiteY
      ensures this.isInPlaquetteBounds == isInPlaquetteBounds
      ensures forall s :: s in ops ==> ops[s] == I
    {
      this.maxSiteX := maxSiteX;
      this.maxSiteY := maxSiteY;
      this.isInPlaquetteBounds := isInPlaquetteBounds;
      ops := map s | s in Sites(maxSiteX, maxSiteY) :: I;
    }

    /** qecsim's `site(op, index)`: composes `op` into the Pauli on `index`;
        an index outside the lattice has no effect. */
    method Site(op: Op, index: Index)
      requires Valid()
      modifies this
      ensures Valid()
      ensures forall s :: s in ops ==>
                ops[s] == if s == index then Mul(old(ops)[s], op) else old(ops)[s]
    {
      if InSiteBounds(index, maxSiteX, maxSiteY) {
        ops := ops[index := Mul(ops[index], op)];
      }
    }

    /** `plaquette(index)`: applies the plaquette operator on its four corners
        when the index is within the plaquette bounds, and does nothing
        otherwise. The type of the plaquette is decided by its row. */
    method Plaquette(index: Index)
      requires Valid()
      modifies this
      ensures Valid()
      ensures !isInPlaquetteBounds(index) ==> ops == old(ops)
      ensures isInPlaquetteBounds(index) ==>
                forall s :: s in ops ==> ops[s] == Mul(old(ops)[s], PlaquetteOp(index, s))
    {
      var (x, y) := index;
      if isInPlaquetteBounds(index) {
        if PlaquetteType(index) == ZxZx {
          Site(Z, (x, y));          // SW
          Site(Z, (x, y + 1));      // NW
          Site(X, (x + 1, y + 1));  // NE
          Site(X, (x + 1, y));      // SE
        } else {
          Site(X, (x, y));          // SW
          Site(X, (x, y + 1));      // NW
          Site(Z, (x + 1, y + 1));  // NE
          Site(Z, (x + 1, y));      // SE
        }
      }
    }

    /** `plaquette(index)` with the type test as written, on the parity of
        x - y; the plaquettes it builds need not commute. */
    method PlaquetteAsWritten(index: Index)
      requires Valid()
      modifies this
      ensures Valid()
      ensures !isInPlaquetteBounds(index) ==> ops == old(ops)
      ensures isInPlaquetteBounds(index) ==>
                forall s :: s in ops ==> ops[s] == Mul(old(ops)[s], PlaquetteOpAsWritten(index, s))
    {
      var (x, y) := index;
      if isInPlaquetteBounds(index) {
        if (if x - y < 0 then y - x else x - y) % 2 == 0 {
          Site(Z, (x, y));          // SW
          Site(Z, (x, y + 1));      // NW
          Site(X, (x + 1, y + 1));  // NE
          Site(X, (x + 1, y));      // SE
        } else {
          Site(X, (x, y));          // SW
          Site(X, (x, y + 1));      // NW
          Site(Z, (x + 1, y + 1));  // NE
          Site(Z, (x + 1, y));      // SE
        }
      }
    }

    /** `logical_x()`: X at even x and Z at odd x along the bottom row. */
    method LogicalX()
      requires Valid()
      modifies this
      ensures Valid()
      ensures forall s :: s in ops ==> ops[s] == Mul(old(ops)[s], LogicalXOp(maxSiteX, s))
    {
      var x := 0;
      while x <= maxSiteX
        invariant Valid()
        invariant 0 <= x && (x <= maxSiteX + 1 || x == 0)
        invariant forall s :: s in ops ==> ops[s] == Mul(old(ops)[s], LogicalXOp(x - 1, s))
      {
        if x % 2 == 0 {
          Site(X, (x, 0));
        } else {
          Site(Z, (x, 0));
        }
        x := x + 1;
      }
    }

    /** `logical_z()`: Z on every site of the rightmost column. */
    method LogicalZ()
      requires Valid()
      modifies this
      ensures Valid()
      ensures forall s :: s in ops ==> ops[s] == Mul(old(ops)[s], LogicalZOp(maxSiteX, maxSiteY, s))
    {
      var y := 0;
      while y <= maxSiteY
        invariant Valid()
        invariant 0 <= y && (y <= maxSiteY + 1 || y == 0)
        invariant forall s :: s in ops ==> ops[s] == Mul(old(ops)[s], LogicalZOp(maxSiteX, y - 1, s))
      {
        Site(Z, (maxSiteX, y));
        y := y + 1;
      }
    }

    /** A plaquette operator is its own inverse: applying it twice gives
        back the Pauli it started from. */
    method PlaquetteTwice(index: Index)
      requires Valid()
      modifies this
      ensures Valid() && ops == old(ops)
    {
      ghost var start := ops;
      Plaquette(index);
      Plaquette(index);
      forall s | s in ops
        ensures ops[s] == start[s]
      {
        MulGroup(start[s], PlaquetteOp(index, s), I);
      }
    }

    /** Applying `logical_x` twice gives back the Pauli it started from. */
    method LogicalXTwice()
      requires Valid()
      modifies this
      ensures Valid() && ops == old(ops)
    {
      ghost var start := ops;
      LogicalX();
      LogicalX();
      forall s | s in ops
        ensures ops[s] == start[s]
      {
        MulGroup(start[s], LogicalXOp(maxSiteX, s), I);
      }
    }

    /** Applying `logical_z` twice gives back the Pauli it started from. */
    method LogicalZTwice()
      requires Valid()
      modifies this
      ensures Valid() && ops == old(ops)
    {
      ghost var start := ops;
      LogicalZ();
      LogicalZ();
      forall s | s in ops
        ensures ops[s] == start[s]
      {
        MulGroup(start[s], LogicalZOp(maxSiteX, maxSiteY, s), I);
      }
    }
  }
}
