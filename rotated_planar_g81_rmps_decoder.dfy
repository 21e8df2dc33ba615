/**
  The reference recovery of the rotated planar G81 RMPS decoder: from the set
  of violated plaquettes, a Pauli frame made of one path per plaquette to a
  boundary of the lattice. The coset contraction that follows it belongs to
  qecsim's RMPS decoder and is not part of this module.
 */
module G81Decoder {
  import opened Paulis
  import opened G81Pauli

  /** The row of the path of a plaquette on an even diagonal: its bottom edge
      on an even row, its top edge on an odd row. */
  function PathRow(p: Index): int {
    if p.1 % 2 == 0 then p.1 else p.1 + 1
  }

  /** The column of the path of a plaquette on an odd diagonal: its left edge
      in an even column, its right edge in an odd column. */
  function PathColumn(p: Index): int {
    if p.0 % 2 == 0 then p.0 else p.0 + 1
  }

  /** The path `sample_recovery` lays for the violated plaquette p, at site s.
      On an even diagonal it is the chain along `PathRow(p)` from x = p.x down
      to 0 with X at even x and Z at odd x; on an odd diagonal it is the chain
      of Z along `PathColumn(p)` from y = 0 up to p.y. */
  function PathOp(p: Index, s: Index): (o: Op)
    ensures (p.0 - p.1) % 2 == 0 ==>
              (o != I <==> s.1 == PathRow(p) && 0 <= s.0 <= p.0) &&
              (o != I ==> o == if s.0 % 2 == 0 then X else Z)
    ensures (p.0 - p.1) % 2 == 1 ==>
              (o != I <==> s.0 == PathColumn(p) && 0 <= s.1 <= p.1) &&
              (o != I ==> o == Z)
  {
    if (p.0 - p.1) % 2 == 0 then
      (if s.1 == PathRow(p) && 0 <= s.0 <= p.0 then (if s.0 % 2 == 0 then X else Z) else I)
    else
      (if s.0 == PathColumn(p) && 0 <= s.1 <= p.1 then Z else I)
  }

  /** The plaquettes of S whose path puts an X part on site s. */
  function XPaths(S: set<Index>, s: Index): set<Index> {
    set p | p in S && XBit(PathOp(p, s))
  }

  /** The plaquettes of S whose path puts a Z part on site s. */
  function ZPaths(S: set<Index>, s: Index): set<Index> {
    set p | p in S && ZBit(PathOp(p, s))
  }

  /** The composition of the paths of all plaquettes in S, at site s: a site
      carries X (Z) iff an odd number of the paths put X (Z) on it. */
  function PathsAt(S: set<Index>, s: Index): (o: Op)
    ensures XBit(o) <==> |XPaths(S, s)| % 2 == 1
    ensures ZBit(o) <==> |ZPaths(S, s)| % 2 == 1
    ensures S == {} ==> o == I
  {
    FromBits(|XPaths(S, s)| % 2 == 1, |ZPaths(S, s)| % 2 == 1)
  }

  /** The reference recovery on every site of the lattice. */
  function RecoveryFrame(maxSiteX: int, maxSiteY: int, S: set<Index>): (m: map<Index, Op>)
    ensures m.Keys == Sites(maxSiteX, maxSiteY)
    ensures S == {} ==> forall s :: s in m ==> m[s] == I
  {
    map s | s in Sites(maxSiteX, maxSiteY) :: PathsAt(S, s)
  }

  /** Adding one new element to a set flips the parity of its size. */
  lemma ParityOfInsert(A: set<Index>, p: Index)
    requires p !in A
    ensures (|A + {p}| % 2 == 1) <==> (|A| % 2 == 0)
  {
  }

  /** Composition does not depend on the order: whichever plaquette of S is
      laid last, the result is the paths of the others composed with its
      path. */
  lemma PathsAtRemove(S: set<Index>, p: Index, s: Index)
    requires p in S
    ensures PathsAt(S, s) == Mul(PathsAt(S - {p}, s), PathOp(p, s))
  {
    var rest := S - {p};
    var o := PathOp(p, s);
    var xs, zs := XPaths(rest, s), ZPaths(rest, s);
    assert XPaths(S, s) == if XBit(o) then xs + {p} else xs;
    assert ZPaths(S, s) == if ZBit(o) then zs + {p} else zs;
    ParityStep(xs, XPaths(S, s), p, XBit(o));
    ParityStep(zs, ZPaths(S, s), p, ZBit(o));
    BitsDetermine(PathsAt(S, s), Mul(PathsAt(rest, s), o));
  }

  /** Adding p to a set that lacks it, or not, flips the parity of its size
      exactly when p is added. */
  lemma ParityStep(A: set<Index>, B: set<Index>, p: Index, added: bool)
    requires p !in A
    requires B == if added then A + {p} else A
    ensures (|B| % 2 == 1) == ((|A| % 2 == 1) != added)
  {
    if added {
      ParityOfInsert(A, p);
    }
  }

  /** A single violated plaquette gives exactly its own path. */
  lemma PathsAtSingleton(p: Index, s: Index)
    ensures PathsAt({p}, s) == PathOp(p, s)
  {
    PathsAtRemove({p}, p, s);
  }

  /** One step of `sample_recovery`: composing the frame of the visited
      plaquettes with the path of a new one gives the frame of both. */
  lemma PathsAtStep(before: map<Index, Op>, after: map<Index, Op>, visited: set<Index>, p: Index)
    requires p !in visited
    requires after.Keys == before.Keys
    requires forall s :: s in before ==> before[s] == PathsAt(visited, s)
    requires forall s :: s in after ==> after[s] == Mul(before[s], PathOp(p, s))
    ensures forall s :: s in after ==> after[s] == PathsAt(visited + {p}, s)
  {
    forall s | s in after
      ensures after[s] == PathsAt(visited + {p}, s)
    {
      PathsAtRemove(visited + {p}, p, s);
      assert visited + {p} - {p} == visited;
    }
  }

  /** One step of the row loop: laying the site at x extends the part of the
      path already laid (the sites right of x) to the sites right of x - 1. */
  lemma RowPathStep(start: map<Index, Op>, before: map<Index, Op>, after: map<Index, Op>, p: Index, x: int)
    requires (p.0 - p.1) % 2 == 0 && 0 <= x <= p.0
    requires before.Keys == start.Keys && after.Keys == start.Keys
    requires forall s :: s in before ==> before[s] == Mul(start[s], if s.0 > x then PathOp(p, s) else I)
    requires forall s :: s in after ==>
               after[s] == if s == (x, PathRow(p)) then Mul(before[s], if x % 2 == 0 then X else Z) else before[s]
    ensures forall s :: s in after ==> after[s] == Mul(start[s], if s.0 > x - 1 then PathOp(p, s) else I)
  {
  }

  /** One step of the column loop: laying the site at y extends the part of
      the path already laid (the sites below y) to the sites below y + 1. */
  lemma ColumnPathStep(start: map<Index, Op>, before: map<Index, Op>, after: map<Index, Op>, p: Index, y: int)
    requires (p.0 - p.1) % 2 == 1 && 0 <= y <= p.1
    requires before.Keys == start.Keys && after.Keys == start.Keys
    requires forall s :: s in before ==> before[s] == Mul(start[s], if s.1 < y then PathOp(p, s) else I)
    requires forall s :: s in after ==>
               after[s] == if s == (PathColumn(p), y) then Mul(before[s], Z) else before[s]
    ensures forall s :: s in after ==> after[s] == Mul(start[s], if s.1 < y + 1 then PathOp(p, s) else I)
  {
  }

  /** A frame over the lattice that holds the paths of S on every site is the
      reference recovery of S. */
  lemma RecoveryFrameOf(m: map<Index, Op>, maxSiteX: int, maxSiteY: int, S: set<Index>)
    requires m.Keys == Sites(maxSiteX, maxSiteY)
    requires forall s :: s in m ==> m[s] == PathsAt(S, s)
    ensures m == RecoveryFrame(maxSiteX, maxSiteY, S)
  {
  }

  /** Lays the X/Z chain along the path row of p from x = p.x down to x = 0. */
  method ApplyRowPath(recovery: RotatedPlanarG81Pauli, p: Index)
    requires recovery.Valid()
    requires (p.0 - p.1) % 2 == 0
    modifies recovery
    ensures recovery.Valid()
    ensures forall s :: s in recovery.ops ==>
              recovery.ops[s] == Mul(old(recovery.ops)[s], PathOp(p, s))
  {
    var row := PathRow(p);
    var x := p.0;
    while x >= 0
      invariant recovery.Valid()
      invariant x <= p.0 && (x >= -1 || x == p.0)
      invariant forall s :: s in recovery.ops ==>
                  recovery.ops[s] == Mul(old(recovery.ops)[s], if s.0 > x then PathOp(p, s) else I)
    {
      ghost var before := recovery.ops;
      if x % 2 == 0 {
        recovery.Site(X, (x, row));
      } else {
        recovery.Site(Z, (x, row));
      }
      RowPathStep(old(recovery.ops), before, recovery.ops, p, x);
      x := x - 1;
    }
  }

  /** Lays the chain of Z along the path column of p from y = 0 up to y = p.y. */
  method ApplyColumnPath(recovery: RotatedPlanarG81Pauli, p: Index)
    requires recovery.Valid()
    requires (p.0 - p.1) % 2 == 1
    modifies recovery
    ensures recovery.Valid()
    ensures forall s :: s in recovery.ops ==>
              recovery.ops[s] == Mul(old(recovery.ops)[s], PathOp(p, s))
  {
    var column := PathColumn(p);
    var y := 0;
    while y <= p.1
      invariant recovery.Valid()
      invariant 0 <= y && (y <= p.1 + 1 || y == 0)
      invariant forall s :: s in recovery.ops ==>
                  recovery.ops[s] == Mul(old(recovery.ops)[s], if s.1 < y then PathOp(p, s) else I)
    {
      ghost var before := recovery.ops;
      recovery.Site(Z, (column, y));
      ColumnPathStep(old(recovery.ops), before, recovery.ops, p, y);
      y := y + 1;
    }
  }

  /** `sample_recovery(code, syndrome)`, given the plaquettes the syndrome
      resolves to: a fresh identity Pauli composed with the path of every
      violated plaquette, visited in any order. */
  method SampleRecovery(maxSiteX: int, maxSiteY: int, isInPlaquetteBounds: Index -> bool,
                        plaquetteIndices: set<Index>)
    returns (recovery: RotatedPlanarG81Pauli)
    ensures fresh(recovery) && recovery.Valid()
    ensures recovery.maxSiteX == maxSiteX && recovery.maxSiteY == maxSiteY
    ensures recovery.ops == RecoveryFrame(maxSiteX, maxSiteY, plaquetteIndices)
  {
    recovery := new RotatedPlanarG81Pauli(maxSiteX, maxSiteY, isInPlaquetteBounds);
    var remaining := plaquetteIndices;
    ghost var visited: set<Index> := {};
    while remaining != {}
      invariant fresh(recovery) && recovery.Valid()
      invariant recovery.maxSiteX == maxSiteX && recovery.maxSiteY == maxSiteY
      invariant remaining + visited == plaquetteIndices && remaining !! visited
      invariant forall s :: s in recovery.ops ==> recovery.ops[s] == PathsAt(visited, s)
      decreases remaining
    {
      var p :| p in remaining;
      ghost var before := recovery.ops;
      if (p.0 - p.1) % 2 == 0 {
        ApplyRowPath(recovery, p);
      } else {
        ApplyColumnPath(recovery, p);
      }
      PathsAtStep(before, recovery.ops, visited, p);
      remaining := remaining - {p};
      visited := visited + {p};
    }
    RecoveryFrameOf(recovery.ops, maxSiteX, maxSiteY, visited);
  }
}
