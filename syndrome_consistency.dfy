/**
  Measuring plaquettes against a Pauli frame, and what the measurements say
  about the G81 lattice: which plaquette and logical operators commute, and
  whether the reference recovery of the decoder reproduces the syndrome it
  was built from. A frame is the map from every lattice site to its Pauli,
  as `RotatedPlanarG81Pauli.ops` keeps it.
 */
module G81Syndrome {
  import opened Paulis
  import opened G81Code
  import opened G81Pauli
  import opened G81Decoder

  /** The frame of a single plaquette of the given kind on the lattice. */
  function PlaquetteFrame(maxSiteX: int, maxSiteY: int, kind: PlaquetteKind, q: Index): (m: map<Index, Op>)
    ensures m.Keys == Sites(maxSiteX, maxSiteY)
    ensures forall s :: s in m ==> m[s] == CornerOp(kind, q, s)
  {
    map s | s in Sites(maxSiteX, maxSiteY) :: CornerOp(kind, q, s)
  }

  /** The frame `logical_x` applies to the identity. */
  function LogicalXFrame(maxSiteX: int, maxSiteY: int): (m: map<Index, Op>)
    ensures m.Keys == Sites(maxSiteX, maxSiteY)
    ensures forall s :: s in m ==> m[s] == LogicalXOp(maxSiteX, s)
  {
    map s | s in Sites(maxSiteX, maxSiteY) :: LogicalXOp(maxSiteX, s)
  }

  /** The frame `logical_z` applies to the identity. */
  function LogicalZFrame(maxSiteX: int, maxSiteY: int): (m: map<Index, Op>)
    ensures m.Keys == Sites(maxSiteX, maxSiteY)
    ensures forall s :: s in m ==> m[s] == LogicalZOp(maxSiteX, maxSiteY, s)
  {
    map s | s in Sites(maxSiteX, maxSiteY) :: LogicalZOp(maxSiteX, maxSiteY, s)
  }

  /** Site by site composition of two frames on the same lattice. */
  function Compose(m1: map<Index, Op>, m2: map<Index, Op>): (m: map<Index, Op>)
    requires m1.Keys == m2.Keys
    ensures m.Keys == m1.Keys
    ensures forall s :: s in m ==> m[s] == Mul(m1[s], m2[s])
  {
    map s | s in m1 :: Mul(m1[s], m2[s])
  }

  /** The sites at which two frames anticommute. */
  function Clashes(m1: map<Index, Op>, m2: map<Index, Op>): set<Index> {
    set s | s in m1 && s in m2 && Anticommute(m1[s], m2[s])
  }

  /** Two frames commute iff they anticommute on an even number of sites:
      their binary symplectic product is 0. */
  predicate Commute(m1: map<Index, Op>, m2: map<Index, Op>) {
    |Clashes(m1, m2)| % 2 == 0
  }

  /** Corner c of plaquette q is a site of the frame, and the frame
      anticommutes there with the plaquette operator. */
  predicate Flips(m: map<Index, Op>, kind: PlaquetteKind, q: Index, c: Index) {
    c in m && Anticommute(m[c], CornerOp(kind, q, c))
  }

  /** The outcome of measuring the plaquette q of the given kind on the
      frame m, read off its four corners (SW, NW, NE, SE). */
  predicate Measure(m: map<Index, Op>, kind: PlaquetteKind, q: Index) {
    ((Flips(m, kind, q, (q.0, q.1)) != Flips(m, kind, q, (q.0, q.1 + 1)))
     != Flips(m, kind, q, (q.0 + 1, q.1 + 1)))
    != Flips(m, kind, q, (q.0 + 1, q.1))
  }

  /** The syndrome of m: the plaquettes of P whose measurement is 1, each
      plaquette q measured as its kind `kindOf(q)`. */
  function Syndrome(m: map<Index, Op>, P: set<Index>, kindOf: Index -> PlaquetteKind): (r: set<Index>)
    ensures r <= P
    ensures forall q :: q in r <==> q in P && Measure(m, kindOf(q), q)
  {
    set q | q in P && Measure(m, kindOf(q), q)
  }

  /** The set {c} when b holds, and the empty set otherwise. */
  function Pick(b: bool, c: Index): set<Index> {
    if b then {c} else {}
  }

  /** Adding a new element, or nothing, to a set. */
  lemma UnionParity(A: set<Index>, c: Index, b: bool)
    requires c !in A
    ensures (|A + Pick(b, c)| % 2 == 1) <==> ((|A| % 2 == 1) != b)
  {
    if b {
      assert A + Pick(b, c) == A + {c};
    } else {
      assert A + Pick(b, c) == A;
    }
  }

  /** Of four distinct sites, the number picked is odd iff the four
      selections have parity 1. */
  lemma PickParity(a: Index, b: Index, c: Index, d: Index, fa: bool, fb: bool, fc: bool, fd: bool)
    requires a != b && a != c && a != d && b != c && b != d && c != d
    ensures (|Pick(fa, a) + Pick(fb, b) + Pick(fc, c) + Pick(fd, d)| % 2 == 1) <==> ((fa != fb) != fc) != fd
  {
    var A := Pick(fa, a);
    UnionParity({}, a, fa);
    assert {} + A == A;
    UnionParity(A, b, fb);
    UnionParity(A + Pick(fb, b), c, fc);
    UnionParity(A + Pick(fb, b) + Pick(fc, c), d, fd);
  }

  /** The corners of q at which the frame anticommutes with the plaquette. */
  function CornerClashes(m: map<Index, Op>, kind: PlaquetteKind, q: Index): set<Index> {
    Pick(Flips(m, kind, q, (q.0, q.1)), (q.0, q.1))
      + Pick(Flips(m, kind, q, (q.0, q.1 + 1)), (q.0, q.1 + 1))
      + Pick(Flips(m, kind, q, (q.0 + 1, q.1 + 1)), (q.0 + 1, q.1 + 1))
      + Pick(Flips(m, kind, q, (q.0 + 1, q.1)), (q.0 + 1, q.1))
  }

  /** A plaquette operator can only clash with a frame at its corners. */
  lemma ClashesAtCorners(m: map<Index, Op>, maxSiteX: int, maxSiteY: int, kind: PlaquetteKind, q: Index)
    requires m.Keys == Sites(maxSiteX, maxSiteY)
    ensures Clashes(m, PlaquetteFrame(maxSiteX, maxSiteY, kind, q)) == CornerClashes(m, kind, q)
  {
  }

  /** Reading a plaquette off its four corners is the same as the symplectic
      product of the frame with the whole plaquette operator. */
  lemma MeasureIsCommutation(m: map<Index, Op>, maxSiteX: int, maxSiteY: int, kind: PlaquetteKind, q: Index)
    requires m.Keys == Sites(maxSiteX, maxSiteY)
    ensures Measure(m, kind, q) <==> !Commute(m, PlaquetteFrame(maxSiteX, maxSiteY, kind, q))
  {
    ClashesAtCorners(m, maxSiteX, maxSiteY, kind, q);
    PickParity((q.0, q.1), (q.0, q.1 + 1), (q.0 + 1, q.1 + 1), (q.0 + 1, q.1),
      Flips(m, kind, q, (q.0, q.1)), Flips(m, kind, q, (q.0, q.1 + 1)),
      Flips(m, kind, q, (q.0 + 1, q.1 + 1)), Flips(m, kind, q, (q.0 + 1, q.1)));
  }

  /** At one corner, the composed frame flips iff exactly one part does. */
  lemma FlipsCompose(m1: map<Index, Op>, m2: map<Index, Op>, kind: PlaquetteKind, q: Index, c: Index)
    requires m1.Keys == m2.Keys
    ensures Flips(Compose(m1, m2), kind, q, c) == (Flips(m1, kind, q, c) != Flips(m2, kind, q, c))
  {
    if c in m1 {
      AnticommuteMul(m1[c], m2[c], CornerOp(kind, q, c));
    }
  }

  /** Measuring is linear: the measurement of a composed frame is the XOR of
      the measurements of its parts. */
  lemma MeasureCompose(m1: map<Index, Op>, m2: map<Index, Op>, kind: PlaquetteKind, q: Index)
    requires m1.Keys == m2.Keys
    ensures Measure(Compose(m1, m2), kind, q) == (Measure(m1, kind, q) != Measure(m2, kind, q))
  {
    var m := Compose(m1, m2);
    var sw, nw, ne, se := (q.0, q.1), (q.0, q.1 + 1), (q.0 + 1, q.1 + 1), (q.0 + 1, q.1);
    FlipsCompose(m1, m2, kind, q, sw);
    FlipsCompose(m1, m2, kind, q, nw);
    FlipsCompose(m1, m2, kind, q, ne);
    FlipsCompose(m1, m2, kind, q, se);
    var a1, b1 := Flips(m1, kind, q, sw), Flips(m1, kind, q, nw);
    var c1, d1 := Flips(m1, kind, q, ne), Flips(m1, kind, q, se);
    var a2, b2 := Flips(m2, kind, q, sw), Flips(m2, kind, q, nw);
    var c2, d2 := Flips(m2, kind, q, ne), Flips(m2, kind, q, se);
    assert Measure(m1, kind, q) == (((a1 != b1) != c1) != d1);
    assert Measure(m2, kind, q) == (((a2 != b2) != c2) != d2);
    assert Measure(m, kind, q) == ((((a1 != a2) != (b1 != b2)) != (c1 != c2)) != (d1 != d2));
    XorRegroup(a1, a2, b1, b2, c1, c2, d1, d2);
  }

  /** XOR of four pairs, regrouped pair by pair. */
  lemma XorRegroup(a1: bool, a2: bool, b1: bool, b2: bool, c1: bool, c2: bool, d1: bool, d2: bool)
    ensures ((((a1 != a2) != (b1 != b2)) != (c1 != c2)) != (d1 != d2))
         == ((((a1 != b1) != c1) != d1) != (((a2 != b2) != c2) != d2))
  {
  }

  /** The frame of the path `sample_recovery` lays for plaquette p alone. */
  function PathFrame(maxSiteX: int, maxSiteY: int, p: Index): (m: map<Index, Op>)
    ensures m.Keys == Sites(maxSiteX, maxSiteY)
    ensures forall s :: s in m ==> m[s] == PathOp(p, s)
  {
    map s | s in Sites(maxSiteX, maxSiteY) :: PathOp(p, s)
  }

  /** The recovery of a single violated plaquette is its path. */
  lemma RecoveryFrameSingleton(maxSiteX: int, maxSiteY: int, p: Index)
    ensures RecoveryFrame(maxSiteX, maxSiteY, {p}) == PathFrame(maxSiteX, maxSiteY, p)
  {
    var m := RecoveryFrame(maxSiteX, maxSiteY, {p});
    forall s | s in m
      ensures m[s] == PathOp(p, s)
    {
      PathsAtSingleton(p, s);
    }
  }

  /** Whichever violated plaquette is laid last, the recovery frame is the
      frame of the others composed with that plaquette's path. */
  lemma RecoveryFrameRemove(maxSiteX: int, maxSiteY: int, S: set<Index>, p: Index)
    requires p in S
    ensures RecoveryFrame(maxSiteX, maxSiteY, S)
         == Compose(RecoveryFrame(maxSiteX, maxSiteY, S - {p}), PathFrame(maxSiteX, maxSiteY, p))
  {
    var whole := RecoveryFrame(maxSiteX, maxSiteY, S);
    var rest := RecoveryFrame(maxSiteX, maxSiteY, S - {p});
    var path := PathFrame(maxSiteX, maxSiteY, p);
    var parts := Compose(rest, path);
    forall s | s in whole
      ensures whole[s] == parts[s]
    {
      assert whole[s] == PathsAt(S, s) && rest[s] == PathsAt(S - {p}, s) && path[s] == PathOp(p, s);
      PathsAtRemove(S, p, s);
    }
  }

  /** The plaquettes of S whose own path lights the plaquette q. */
  function Lighting(maxSiteX: int, maxSiteY: int, S: set<Index>, kind: PlaquetteKind, q: Index): set<Index> {
    set p | p in S && Measure(PathFrame(maxSiteX, maxSiteY, p), kind, q)
  }

  /** Removing one path from S changes the parity of the paths lighting q
      iff that path lights q. */
  lemma LightingRemove(maxSiteX: int, maxSiteY: int, S: set<Index>, kind: PlaquetteKind, q: Index, p: Index)
    requires p in S
    ensures (|Lighting(maxSiteX, maxSiteY, S, kind, q)| % 2 == 1)
        <==> ((|Lighting(maxSiteX, maxSiteY, S - {p}, kind, q)| % 2 == 1)
              != Measure(PathFrame(maxSiteX, maxSiteY, p), kind, q))
  {
    var lit := Lighting(maxSiteX, maxSiteY, S - {p}, kind, q);
    if Measure(PathFrame(maxSiteX, maxSiteY, p), kind, q) {
      assert Lighting(maxSiteX, maxSiteY, S, kind, q) == lit + {p};
      ParityOfInsert(lit, p);
    } else {
      assert Lighting(maxSiteX, maxSiteY, S, kind, q) == lit;
    }
  }

  /** The identity frame lights no plaquette. */
  lemma IdentityMeasuresZero(m: map<Index, Op>, kind: PlaquetteKind, q: Index)
    requires forall s :: s in m ==> m[s] == I
    ensures !Measure(m, kind, q)
  {
  }

  /** The recovery lights the plaquette q iff an odd number of the paths it
      is made of light q. */
  lemma {:induction false} RecoveryMeasure(maxSiteX: int, maxSiteY: int, S: set<Index>, kind: PlaquetteKind, q: Index)
    ensures Measure(RecoveryFrame(maxSiteX, maxSiteY, S), kind, q)
        <==> |Lighting(maxSiteX, maxSiteY, S, kind, q)| % 2 == 1
    decreases S
  {
    if S == {} {
      assert Lighting(maxSiteX, maxSiteY, S, kind, q) == {};
      IdentityMeasuresZero(RecoveryFrame(maxSiteX, maxSiteY, S), kind, q);
    } else {
      var p :| p in S;
      var rest := S - {p};
      RecoveryMeasure(maxSiteX, maxSiteY, rest, kind, q);
      RecoveryFrameRemove(maxSiteX, maxSiteY, S, p);
      MeasureCompose(RecoveryFrame(maxSiteX, maxSiteY, rest), PathFrame(maxSiteX, maxSiteY, p), kind, q);
      LightingRemove(maxSiteX, maxSiteY, S, kind, q, p);
    }
  }

  /** Among the plaquettes P, the path of each plaquette lights that
      plaquette and no other. */
  ghost predicate PathsSeparate(maxSiteX: int, maxSiteY: int, P: set<Index>, kindOf: Index -> PlaquetteKind) {
    forall p, q :: p in P && q in P ==>
      (Measure(PathFrame(maxSiteX, maxSiteY, p), kindOf(q), q) <==> p == q)
  }

  /** A set that holds one element or none has odd size iff it holds one. */
  lemma OddSingleton(A: set<Index>, q: Index, b: bool)
    requires A == if b then {q} else {}
    ensures (|A| % 2 == 1) == b
  {
  }

  /** When the paths separate the plaquettes, a recovery built from S
      lights a plaquette of P iff it is in S. */
  lemma RecoveryLights(maxSiteX: int, maxSiteY: int, P: set<Index>,
                       kindOf: Index -> PlaquetteKind, S: set<Index>, q: Index)
    requires S <= P && q in P
    requires PathsSeparate(maxSiteX, maxSiteY, P, kindOf)
    ensures Measure(RecoveryFrame(maxSiteX, maxSiteY, S), kindOf(q), q) <==> q in S
  {
    var kind := kindOf(q);
    RecoveryMeasure(maxSiteX, maxSiteY, S, kind, q);
    var lit := Lighting(maxSiteX, maxSiteY, S, kind, q);
    LightingSeparate(maxSiteX, maxSiteY, P, kindOf, S, q);
    OddSingleton(lit, q, q in S);
  }

  /** When the paths separate the plaquettes, the only path of S that can
      light q is the path of q itself. */
  lemma LightingSeparate(maxSiteX: int, maxSiteY: int, P: set<Index>,
                         kindOf: Index -> PlaquetteKind, S: set<Index>, q: Index)
    requires S <= P && q in P
    requires PathsSeparate(maxSiteX, maxSiteY, P, kindOf)
    ensures Lighting(maxSiteX, maxSiteY, S, kindOf(q), q) == if q in S then {q} else {}
  {
    var lit := Lighting(maxSiteX, maxSiteY, S, kindOf(q), q);
    forall p | p in lit
      ensures p == q
    {
      assert p in P && Measure(PathFrame(maxSiteX, maxSiteY, p), kindOf(q), q);
    }
    if q in S {
      assert Measure(PathFrame(maxSiteX, maxSiteY, q), kindOf(q), q);
      assert q in lit;
    }
  }

  /** When the paths separate the plaquettes, the recovery built from any
      set S of violated plaquettes has exactly the syndrome S. */
  lemma RecoveryReproducesSyndrome(maxSiteX: int, maxSiteY: int, P: set<Index>,
                                   kindOf: Index -> PlaquetteKind, S: set<Index>)
    requires S <= P
    requires PathsSeparate(maxSiteX, maxSiteY, P, kindOf)
    ensures Syndrome(RecoveryFrame(maxSiteX, maxSiteY, S), P, kindOf) == S
  {
    forall q | q in P
      ensures Measure(RecoveryFrame(maxSiteX, maxSiteY, S), kindOf(q), q) <==> q in S
    {
      RecoveryLights(maxSiteX, maxSiteY, P, kindOf, S, q);
    }
  }

  /** The plaquettes p and q anticommute at the corner c of q. */
  predicate CornerClash(p: Index, q: Index, c: Index) {
    Anticommute(PlaquetteOp(p, c), PlaquetteOp(q, c))
  }

  /** p clashes with q at an odd number of q's corners, on the unbounded plane. */
  predicate OddCornerClashes(p: Index, q: Index) {
    ((CornerClash(p, q, (q.0, q.1)) != CornerClash(p, q, (q.0, q.1 + 1)))
     != CornerClash(p, q, (q.0 + 1, q.1 + 1)))
    != CornerClash(p, q, (q.0 + 1, q.1))
  }

  /** Two plaquettes under the row rule commute on the unbounded plane: read
      off the corners of q, the corner operators of p clash an even number
      of times. */
  lemma CornerOpsCommute(p: Index, q: Index)
    ensures !OddCornerClashes(p, q)
  {
    var dx, dy := p.0 - q.0, p.1 - q.1;
    if dy == 1 || dy == -1 {
      assert PlaquetteType(p) != PlaquetteType(q);
    } else if dy == 0 {
      assert PlaquetteType(p) == PlaquetteType(q);
    }
  }

  /** Two plaquettes under the row rule commute whenever every site they
      share lies on the lattice. */
  lemma PlaquettesCommute(maxSiteX: int, maxSiteY: int, p: Index, q: Index)
    requires p == q || forall c :: IsCorner(p, c) && IsCorner(q, c) ==> InSiteBounds(c, maxSiteX, maxSiteY)
    ensures Commute(PlaquetteFrame(maxSiteX, maxSiteY, PlaquetteType(p), p),
                    PlaquetteFrame(maxSiteX, maxSiteY, PlaquetteType(q), q))
  {
    var m := PlaquetteFrame(maxSiteX, maxSiteY, PlaquetteType(p), p);
    forall c | c in [(q.0, q.1), (q.0, q.1 + 1), (q.0 + 1, q.1 + 1), (q.0 + 1, q.1)]
      ensures Flips(m, PlaquetteType(q), q, c) == CornerClash(p, q, c)
    {
      PlaquetteFlipsAt(maxSiteX, maxSiteY, p, q, c);
    }
    CornerOpsCommute(p, q);
    MeasureIsCommutation(m, maxSiteX, maxSiteY, PlaquetteType(q), q);
  }

  /** At a corner c of q that is on the lattice or not shared with p, the
      plaquette p flips q's reading iff the two operators anticommute at c. */
  lemma PlaquetteFlipsAt(maxSiteX: int, maxSiteY: int, p: Index, q: Index, c: Index)
    requires IsCorner(q, c)
    requires p == q || (IsCorner(p, c) ==> InSiteBounds(c, maxSiteX, maxSiteY))
    ensures Flips(PlaquetteFrame(maxSiteX, maxSiteY, PlaquetteType(p), p), PlaquetteType(q), q, c)
         == CornerClash(p, q, c)
  {
    if p == q {
      assert !CornerClash(p, q, c);
    }
  }

  /** `logical_x` anticommutes with a plaquette under the row rule iff the
      plaquette is (maxSiteX, 0) or (-1, -1); neither is a plaquette of the
      lattice. */
  lemma LogicalXAgainstPlaquette(maxSiteX: int, maxSiteY: int, q: Index)
    requires 0 <= maxSiteX && maxSiteX % 2 == 0 && 0 <= maxSiteY
    ensures Commute(LogicalXFrame(maxSiteX, maxSiteY), PlaquetteFrame(maxSiteX, maxSiteY, PlaquetteType(q), q))
        <==> q != (maxSiteX, 0) && q != (-1, -1)
  {
    var m := LogicalXFrame(maxSiteX, maxSiteY);
    var kind := PlaquetteType(q);
    forall c | c in [(q.0, q.1), (q.0, q.1 + 1), (q.0 + 1, q.1 + 1), (q.0 + 1, q.1)]
      ensures Flips(m, kind, q, c) == LogicalXFlips(maxSiteX, q, c)
    {
    }
    LogicalXCorners(maxSiteX, q);
    MeasureIsCommutation(m, maxSiteX, maxSiteY, kind, q);
  }

  /** The clashes of `logical_x` with the corners of a plaquette on the
      bottom row, without the frame. */
  predicate LogicalXFlips(maxSiteX: int, q: Index, c: Index) {
    c.1 == 0 && 0 <= c.0 <= maxSiteX && Anticommute(LogicalXOp(maxSiteX, c), PlaquetteOp(q, c))
  }

  /** `logical_x` read at the four corners of q, without the frame. */
  predicate LogicalXLights(maxSiteX: int, q: Index) {
    ((LogicalXFlips(maxSiteX, q, (q.0, q.1)) != LogicalXFlips(maxSiteX, q, (q.0, q.1 + 1)))
     != LogicalXFlips(maxSiteX, q, (q.0 + 1, q.1 + 1)))
    != LogicalXFlips(maxSiteX, q, (q.0 + 1, q.1))
  }

  /** `LogicalXAgainstPlaquette` on the map-free form. */
  lemma LogicalXCorners(maxSiteX: int, q: Index)
    requires 0 <= maxSiteX && maxSiteX % 2 == 0
    ensures LogicalXLights(maxSiteX, q) <==> q == (maxSiteX, 0) || q == (-1, -1)
  {
    if q.1 == 0 {
      assert PlaquetteType(q) == ZxZx;
      if q.0 % 2 == 0 {
        assert (q.0 + 1) % 2 == 1;
      } else {
        assert (q.0 + 1) % 2 == 0;
      }
    } else if q.1 == -1 {
      assert PlaquetteType(q) == XzXz;
      if q.0 % 2 == 0 {
        assert (q.0 + 1) % 2 == 1;
      } else {
        assert (q.0 + 1) % 2 == 0;
      }
    }
  }

  /** `logical_z` anticommutes with a plaquette under the row rule iff the
      plaquette is (maxSiteX, -1) or (maxSiteX - 1, maxSiteY); neither is a
      plaquette of the lattice. */
  lemma LogicalZAgainstPlaquette(maxSiteX: int, maxSiteY: int, q: Index)
    requires 0 <= maxSiteX && 0 <= maxSiteY && maxSiteY % 2 == 0
    ensures Commute(LogicalZFrame(maxSiteX, maxSiteY), PlaquetteFrame(maxSiteX, maxSiteY, PlaquetteType(q), q))
        <==> q != (maxSiteX, -1) && q != (maxSiteX - 1, maxSiteY)
  {
    var m := LogicalZFrame(maxSiteX, maxSiteY);
    var kind := PlaquetteType(q);
    forall c | c in [(q.0, q.1), (q.0, q.1 + 1), (q.0 + 1, q.1 + 1), (q.0 + 1, q.1)]
      ensures Flips(m, kind, q, c) == LogicalZFlips(maxSiteX, maxSiteY, q, c)
    {
    }
    LogicalZCorners(maxSiteX, maxSiteY, q);
    MeasureIsCommutation(m, maxSiteX, maxSiteY, kind, q);
  }

  /** The clashes of `logical_z` with the corners of a plaquette on the
      rightmost column, without the frame. */
  predicate LogicalZFlips(maxSiteX: int, maxSiteY: int, q: Index, c: Index) {
    c.0 == maxSiteX && 0 <= c.1 <= maxSiteY && Anticommute(Z, PlaquetteOp(q, c))
  }

  /** `logical_z` read at the four corners of q, without the frame. */
  predicate LogicalZLights(maxSiteX: int, maxSiteY: int, q: Index) {
    ((LogicalZFlips(maxSiteX, maxSiteY, q, (q.0, q.1)) != LogicalZFlips(maxSiteX, maxSiteY, q, (q.0, q.1 + 1)))
     != LogicalZFlips(maxSiteX, maxSiteY, q, (q.0 + 1, q.1 + 1)))
    != LogicalZFlips(maxSiteX, maxSiteY, q, (q.0 + 1, q.1))
  }

  /** `LogicalZAgainstPlaquette` on the map-free form. */
  lemma LogicalZCorners(maxSiteX: int, maxSiteY: int, q: Index)
    requires 0 <= maxSiteY && maxSiteY % 2 == 0
    ensures LogicalZLights(maxSiteX, maxSiteY, q) <==> q == (maxSiteX, -1) || q == (maxSiteX - 1, maxSiteY)
  {
    if q.0 == maxSiteX {
      if q.1 % 2 == 0 {
        assert PlaquetteType(q) == ZxZx;
      } else {
        assert PlaquetteType(q) == XzXz;
      }
    } else if q.0 + 1 == maxSiteX {
      if q.1 % 2 == 0 {
        assert PlaquetteType(q) == ZxZx;
      } else {
        assert PlaquetteType(q) == XzXz;
      }
    }
  }

  /** The two logical operators clash on exactly one site, the lower right
      corner, when the lattice has an odd number of columns, and on none
      otherwise. */
  lemma LogicalClashes(maxSiteX: int, maxSiteY: int)
    requires 0 <= maxSiteX && 0 <= maxSiteY
    ensures Clashes(LogicalXFrame(maxSiteX, maxSiteY), LogicalZFrame(maxSiteX, maxSiteY))
         == if maxSiteX % 2 == 0 then {(maxSiteX, 0)} else {}
  {
    var lx, lz := LogicalXFrame(maxSiteX, maxSiteY), LogicalZFrame(maxSiteX, maxSiteY);
    forall s | s in Clashes(lx, lz)
      ensures s == (maxSiteX, 0) && maxSiteX % 2 == 0
    {
    }
    if maxSiteX % 2 == 0 {
      assert (maxSiteX, 0) in Clashes(lx, lz);
    }
  }

  /** For every code the constructor accepts, `logical_x` and `logical_z`
      anticommute, as a pair of logical operators must. */
  lemma LogicalsAnticommute(code: Code)
    ensures var (maxSiteX, maxSiteY) := SiteBounds(code);
            !Commute(LogicalXFrame(maxSiteX, maxSiteY), LogicalZFrame(maxSiteX, maxSiteY))
  {
    var (maxSiteX, maxSiteY) := SiteBounds(code);
    LogicalClashes(maxSiteX, maxSiteY);
  }
}

/**
  The distance-3 lattice drawn in the docstring of the code: its eight
  plaquettes, the recovery reproducing every syndrome under the row rule for
  plaquette types, and the failures of the (x - y) rule that `plaquette`
  is written with.
 */
module G81Distance3 {
  import opened Paulis
  import opened G81Code
  import opened G81Pauli
  import opened G81Decoder
  import opened G81Syndrome

  /** The plaquette indices of the distance-3 lattice: four bulk plaquettes
      and one boundary plaquette on each side. */
  const Plaquettes3: set<Index> := {(-1, 0), (0, 0), (1, 0), (0, 1), (1, 1), (2, 1), (0, 2), (1, -1)}

  /** Corner c of q flips under the path of p, read without the frame. */
  predicate PathFlips3(p: Index, q: Index, c: Index) {
    InSiteBounds(c, 2, 2) && Anticommute(PathOp(p, c), CornerOp(PlaquetteType(q), q, c))
  }

  /** The path of one distance-3 plaquette, measured at one plaquette. */
  lemma PathLights3(p: Index, q: Index)
    requires p in Plaquettes3 && q in Plaquettes3
    ensures Measure(PathFrame(2, 2, p), PlaquetteType(q), q) <==> p == q
  {
    var m := PathFrame(2, 2, p);
    var kind := PlaquetteType(q);
    forall c | c in [(q.0, q.1), (q.0, q.1 + 1), (q.0 + 1, q.1 + 1), (q.0 + 1, q.1)]
      ensures Flips(m, kind, q, c) == PathFlips3(p, q, c)
    {
    }
    PathLightsAt3(p, q);
  }

  /** Whether the path of p lights plaquette q, read without the frame. */
  predicate Lights3(p: Index, q: Index) {
    ((PathFlips3(p, q, (q.0, q.1)) != PathFlips3(p, q, (q.0, q.1 + 1)))
     != PathFlips3(p, q, (q.0 + 1, q.1 + 1)))
    != PathFlips3(p, q, (q.0 + 1, q.1))
  }

  /** `PathLights3` on the map-free form. */
  lemma PathLightsAt3(p: Index, q: Index)
    requires p in Plaquettes3 && q in Plaquettes3
    ensures Lights3(p, q) == (p == q)
  {
    if q.1 == 0 {
      PathLightsBottomRow3(p, q);
    } else if q.1 == 1 {
      PathLightsMiddleRow3(p, q);
    } else {
      PathLightsOuterRows3(p, q);
    }
  }

  /** `PathLightsAt3` for the plaquettes of row 0. */
  lemma PathLightsBottomRow3(p: Index, q: Index)
    requires p in Plaquettes3 && q in {(-1, 0), (0, 0), (1, 0)}
    ensures Lights3(p, q) == (p == q)
  {
  }

  /** `PathLightsAt3` for the plaquettes of row 1. */
  lemma PathLightsMiddleRow3(p: Index, q: Index)
    requires p in Plaquettes3 && q in {(0, 1), (1, 1), (2, 1)}
    ensures Lights3(p, q) == (p == q)
  {
  }

  /** `PathLightsAt3` for the boundary plaquettes of rows -1 and 2. */
  lemma PathLightsOuterRows3(p: Index, q: Index)
    requires p in Plaquettes3 && q in {(1, -1), (0, 2)}
    ensures Lights3(p, q) == (p == q)
  {
  }

  /** On the distance-3 lattice each path lights its own plaquette only. */
  lemma PathsSeparate3()
    ensures PathsSeparate(2, 2, Plaquettes3, PlaquetteType)
  {
    forall p, q | p in Plaquettes3 && q in Plaquettes3
      ensures Measure(PathFrame(2, 2, p), PlaquetteType(q), q) <==> p == q
    {
      PathLights3(p, q);
    }
  }

  /** `sample_recovery` on the distance-3 lattice: for every set of violated
      plaquettes, the recovery it returns has exactly that syndrome. */
  lemma SampleRecoveryReproducesSyndrome3(S: set<Index>)
    requires S <= Plaquettes3
    ensures Syndrome(RecoveryFrame(2, 2, S), Plaquettes3, PlaquetteType) == S
  {
    PathsSeparate3();
    RecoveryReproducesSyndrome(2, 2, Plaquettes3, PlaquetteType, S);
  }

  /** With plaquette types taken from the parity of x - y, the path of (0, 0)
      anticommutes with the boundary plaquette (-1, 0) at the site (0, 0). */
  lemma OriginPathAsWritten3()
    ensures Measure(PathFrame(2, 2, (0, 0)), PlaquetteTypeAsWritten((-1, 0)), (-1, 0))
  {
    var m := PathFrame(2, 2, (0, 0));
    assert m[(0, 0)] == X && m[(0, 1)] == I;
    var kind := PlaquetteTypeAsWritten((-1, 0));
    assert kind == XzXz;
    assert !Flips(m, kind, (-1, 0), (-1, 0)) && !Flips(m, kind, (-1, 0), (-1, 1));
    assert Flips(m, kind, (-1, 0), (0, 0)) && !Flips(m, kind, (-1, 0), (0, 1));
  }

  /** With plaquette types taken from the parity of x - y, the recovery for
      the single violated plaquette (0, 0) also lights (-1, 0). */
  lemma SampleRecoveryAsWrittenFails3()
    ensures Syndrome(RecoveryFrame(2, 2, {(0, 0)}), Plaquettes3, PlaquetteTypeAsWritten) != {(0, 0)}
  {
    RecoveryFrameSingleton(2, 2, (0, 0));
    OriginPathAsWritten3();
    assert (-1, 0) in Syndrome(RecoveryFrame(2, 2, {(0, 0)}), Plaquettes3, PlaquetteTypeAsWritten);
  }

  /** The stabilizers of the distance-3 lattice, typed by the row rule,
      commute pairwise. */
  lemma StabilizersCommute3(p: Index, q: Index)
    requires p in Plaquettes3 && q in Plaquettes3
    ensures Commute(PlaquetteFrame(2, 2, PlaquetteType(p), p), PlaquetteFrame(2, 2, PlaquetteType(q), q))
  {
    if p != q {
      forall c | IsCorner(p, c) && IsCorner(q, c)
        ensures InSiteBounds(c, 2, 2)
      {
      }
    }
    PlaquettesCommute(2, 2, p, q);
  }

  /** Both logical operators of the distance-3 lattice commute with every
      stabilizer typed by the row rule. */
  lemma LogicalsCommuteWithStabilizers3(q: Index)
    requires q in Plaquettes3
    ensures Commute(LogicalXFrame(2, 2), PlaquetteFrame(2, 2, PlaquetteType(q), q))
    ensures Commute(LogicalZFrame(2, 2), PlaquetteFrame(2, 2, PlaquetteType(q), q))
  {
    assert q != (2, 0) && q != (-1, -1) && q != (2, -1) && q != (1, 2);
    LogicalXAgainstPlaquette(2, 2, q);
    LogicalZAgainstPlaquette(2, 2, q);
  }

  /** With plaquette types taken from the parity of x - y, the stabilizers
      (0, 0) and (1, 1) anticommute: they share the site (1, 1), where one
      applies X and the other Z. */
  lemma StabilizersAsWrittenAnticommute3()
    ensures !Commute(PlaquetteFrame(2, 2, PlaquetteTypeAsWritten((0, 0)), (0, 0)),
                     PlaquetteFrame(2, 2, PlaquetteTypeAsWritten((1, 1)), (1, 1)))
  {
    var m := PlaquetteFrame(2, 2, PlaquetteTypeAsWritten((0, 0)), (0, 0));
    var kind := PlaquetteTypeAsWritten((1, 1));
    assert kind == ZxZx && m[(1, 1)] == X;
    assert Flips(m, kind, (1, 1), (1, 1));
    assert !Flips(m, kind, (1, 1), (1, 2)) && !Flips(m, kind, (1, 1), (2, 2)) && !Flips(m, kind, (1, 1), (2, 1));
    MeasureIsCommutation(m, 2, 2, kind, (1, 1));
  }

  /** With plaquette types taken from the parity of x - y, `logical_x`
      anticommutes with the stabilizer (-1, 0). */
  lemma LogicalXAsWrittenAnticommutes3()
    ensures !Commute(LogicalXFrame(2, 2), PlaquetteFrame(2, 2, PlaquetteTypeAsWritten((-1, 0)), (-1, 0)))
  {
    var m := LogicalXFrame(2, 2);
    var kind := PlaquetteTypeAsWritten((-1, 0));
    assert kind == XzXz && m[(0, 0)] == X && m[(0, 1)] == I;
    assert !Flips(m, kind, (-1, 0), (-1, 0)) && !Flips(m, kind, (-1, 0), (-1, 1));
    assert Flips(m, kind, (-1, 0), (0, 0)) && !Flips(m, kind, (-1, 0), (0, 1));
    MeasureIsCommutation(m, 2, 2, kind, (-1, 0));
  }

  /** With plaquette types taken from the parity of x - y, `logical_z`
      anticommutes with the stabilizer (1, -1). */
  lemma LogicalZAsWrittenAnticommutes3()
    ensures !Commute(LogicalZFrame(2, 2), PlaquetteFrame(2, 2, PlaquetteTypeAsWritten((1, -1)), (1, -1)))
  {
    var m := LogicalZFrame(2, 2);
    var kind := PlaquetteTypeAsWritten((1, -1));
    assert kind == ZxZx && m[(1, 0)] == I && m[(2, 0)] == Z;
    assert !Flips(m, kind, (1, -1), (1, -1)) && !Flips(m, kind, (1, -1), (2, -1));
    assert !Flips(m, kind, (1, -1), (1, 0)) && Flips(m, kind, (1, -1), (2, 0));
    MeasureIsCommutation(m, 2, 2, kind, (1, -1));
  }
}
