/**
  The local tensor factory of the rotated planar G81 RMPS decoder (`TNC`):
  the value of each entry of a qubit tensor, the table of leg shapes for bulk,
  edge and corner qubits, the shape of the combined node, and the loop that
  fills the q-node. Probabilities are opaque values of any type; the delta
  tensors and the einsum that absorbs them are not part of this module.
 */
module TensorNetworkCreator {
  import opened Paulis
  import opened Results

  /** A probability distribution in the order (Pr(I), Pr(X), Pr(Y), Pr(Z)). */
  datatype Distribution<T> = Distribution(pI: T, pX: T, pY: T, pZ: T)

  /** `dict(zip(('I', 'X', 'Y', 'Z'), prob_dist))[o]`. */
  function Probability<T>(dist: Distribution<T>, o: Op): T {
    match o
    case I => dist.pI
    case X => dist.pX
    case Y => dist.pY
    case Z => dist.pZ
  }

  /** `pauli_to_bsf` for one qubit: the (x, z) components as 0 or 1. */
  function PauliToBsf(o: Op): (b: (int, int))
    ensures 0 <= b.0 < 2 && 0 <= b.1 < 2
    ensures FromBits(b.0 == 1, b.1 == 1) == o
  {
    (if XBit(o) then 1 else 0, if ZBit(o) then 1 else 0)
  }

  /** `bsf_to_pauli` for one qubit. */
  function BsfToPauli(b: (int, int)): (o: Op)
    requires 0 <= b.0 < 2 && 0 <= b.1 < 2
    ensures PauliToBsf(o) == b
  {
    FromBits(b.0 == 1, b.1 == 1)
  }

  /** The Pauli whose probability an h-node entry takes, computed as the
      source does: `(f + n*Z + e*X + s*Z + w*X) % 2` in an even column and
      `(f + n*X + e*Z + s*X + w*Z) % 2` in an odd one. It is the frame Pauli
      composed with Z (X) once for every active north or south leg and with
      X (Z) once for every active east or west leg. */
  function HNodeOp(f: Op, n: nat, e: nat, s: nat, w: nat, evenColumn: bool): (o: Op)
    ensures evenColumn ==> o == Mul(f, Mul(Power(Z, n + s), Power(X, e + w)))
    ensures !evenColumn ==> o == Mul(f, Mul(Power(X, n + s), Power(Z, e + w)))
  {
    var fb, xb, zb := PauliToBsf(f), (1, 0), (0, 1);
    assert xb == PauliToBsf(X) && zb == PauliToBsf(Z);
    var op :=
      if evenColumn then
        ((fb.0 + n * zb.0 + e * xb.0 + s * zb.0 + w * xb.0) % 2,
         (fb.1 + n * zb.1 + e * xb.1 + s * zb.1 + w * xb.1) % 2)
      else
        ((fb.0 + n * xb.0 + e * zb.0 + s * xb.0 + w * zb.0) % 2,
         (fb.1 + n * xb.1 + e * zb.1 + s * xb.1 + w * zb.1) % 2);
    var o := BsfToPauli(op);
    BitsDetermine(o, Mul(f, if evenColumn then Mul(Power(Z, n + s), Power(X, e + w))
                            else Mul(Power(X, n + s), Power(Z, e + w))));
    o
  }

  /** `h_node_value`: the probability of the Pauli `HNodeOp` computes. With
      every leg off it is the probability of the frame Pauli itself. */
  function HNodeValue<T>(dist: Distribution<T>, f: Op, n: nat, e: nat, s: nat, w: nat,
                         evenColumn: bool): (r: T)
    ensures n == e == s == w == 0 ==> r == Probability(dist, f)
    ensures evenColumn ==> r == Probability(dist, Mul(f, Mul(Power(Z, n + s), Power(X, e + w))))
    ensures !evenColumn ==> r == Probability(dist, Mul(f, Mul(Power(X, n + s), Power(Z, e + w))))
  {
    Probability(dist, HNodeOp(f, n, e, s, w, evenColumn))
  }

  /** `v_node_value`: the h-node value with the legs rotated by one. A v-node
      therefore weighs its legs as an h-node of the other column parity. */
  function VNodeValue<T>(dist: Distribution<T>, f: Op, n: nat, e: nat, s: nat, w: nat,
                         evenColumn: bool): (r: T)
    ensures r == HNodeValue(dist, f, n, e, s, w, !evenColumn)
  {
    HNodeValue(dist, f, e, s, w, n, evenColumn)
  }

  /** The column parity exchanges the roles of X and Z: an odd-column entry
      is the even-column entry of the X/Z-exchanged frame, exchanged back. */
  lemma HNodeOpColumnParity(f: Op, n: nat, e: nat, s: nat, w: nat)
    ensures HNodeOp(f, n, e, s, w, false) == SwapXZ(HNodeOp(SwapXZ(f), n, e, s, w, true))
  {
    var odd, even := HNodeOp(f, n, e, s, w, false), HNodeOp(SwapXZ(f), n, e, s, w, true);
    BitsDetermine(odd, SwapXZ(even));
  }

  /** Two entries of a node take the same probability index iff their north
      and south legs have the same parity and their east and west legs have
      the same parity. In particular, flipping both n and s, or both e and w,
      leaves the value unchanged, and the four parities select the four
      Paulis, each once. */
  lemma HNodeOpDependsOnLegParities(f: Op, n: nat, e: nat, s: nat, w: nat,
                                    n': nat, e': nat, s': nat, w': nat, evenColumn: bool)
    ensures HNodeOp(f, n, e, s, w, evenColumn) == HNodeOp(f, n', e', s', w', evenColumn)
            <==> (n + s) % 2 == (n' + s') % 2 && (e + w) % 2 == (e' + w') % 2
  {
    var a, b := HNodeOp(f, n, e, s, w, evenColumn), HNodeOp(f, n', e', s', w', evenColumn);
    HNodeOpBits(f, n, e, s, w, evenColumn);
    HNodeOpBits(f, n', e', s', w', evenColumn);
    if (n + s) % 2 == (n' + s') % 2 && (e + w) % 2 == (e' + w') % 2 {
      BitsDetermine(a, b);
    }
  }

  /** The binary symplectic form of an h-node entry: the frame's bits, with
      the bit of the north/south Pauli flipped by an odd n + s and the bit of
      the east/west Pauli flipped by an odd e + w. */
  lemma HNodeOpBits(f: Op, n: nat, e: nat, s: nat, w: nat, evenColumn: bool)
    ensures XBit(HNodeOp(f, n, e, s, w, evenColumn))
            == (XBit(f) != (if evenColumn then (e + w) % 2 == 1 else (n + s) % 2 == 1))
    ensures ZBit(HNodeOp(f, n, e, s, w, evenColumn))
            == (ZBit(f) != (if evenColumn then (n + s) % 2 == 1 else (e + w) % 2 == 1))
  {
  }

  /** The value of entry (n, e, s, w) of an h-node or a v-node. */
  function NodeValue<T>(dist: Distribution<T>, f: Op, hNode: bool, n: nat, e: nat, s: nat, w: nat,
                        evenColumn: bool): T
  {
    if hNode then HNodeValue(dist, f, n, e, s, w, evenColumn)
    else VNodeValue(dist, f, n, e, s, w, evenColumn)
  }

  type Shape3 = (nat, nat, nat)
  type Shape4 = (nat, nat, nat, nat)

  /** The shape of the q-node, legs (n, e, s, w), and of its four delta nodes
      (n, I, j), (e, J, k), (s, K, l) and (w, L, i). */
  datatype NodeShapes = NodeShapes(q: Shape4, n: Shape3, e: Shape3, s: Shape3, w: Shape3)

  datatype ShapeError = ValueError(message: string)

  const SwCornerMessage: string := "Cannot have v-node in SW corner of lattice."

  /** The compass directions of the edges and corners of the lattice; any
      other tag, the empty one included, means a bulk qubit. */
  predicate IsEdgeTag(compassDirection: string) {
    compassDirection in {"n", "e", "s", "w"}
  }

  predicate IsCornerTag(compassDirection: string) {
    compassDirection in {"ne", "se", "sw", "nw"}
  }

  /** The number of legs of a q-node shape that have size 1. */
  function SingletonLegs(q: Shape4): nat {
    (if q.0 == 1 then 1 else 0) + (if q.1 == 1 then 1 else 0) +
    (if q.2 == 1 then 1 else 0) + (if q.3 == 1 then 1 else 0)
  }

  /** Every leg has size 1 or 2, and each delta node shares its first leg
      with the q-node leg it is contracted over. */
  predicate ShapesAgree(sh: NodeShapes) {
    && sh.q.0 in {1, 2} && sh.q.1 in {1, 2} && sh.q.2 in {1, 2} && sh.q.3 in {1, 2}
    && sh.n.0 == sh.q.0 && sh.e.0 == sh.q.1 && sh.s.0 == sh.q.2 && sh.w.0 == sh.q.3
    && sh.n.1 in {1, 2} && sh.n.2 in {1, 2} && sh.e.1 in {1, 2} && sh.e.2 in {1, 2}
    && sh.s.1 in {1, 2} && sh.s.2 in {1, 2} && sh.w.1 in {1, 2} && sh.w.2 in {1, 2}
  }

  /** The shape of the combined node, `(w[2]*n[1], n[2]*e[1], e[2]*s[1], s[2]*w[1])`:
      the delta legs (iI)(jJ)(Kk)(Ll) folded pairwise. */
  function CombinedShape(sh: NodeShapes): (r: Shape4)
    ensures ShapesAgree(sh) ==> r.0 in {1, 2, 4} && r.1 in {1, 2, 4} && r.2 in {1, 2, 4} && r.3 in {1, 2, 4}
  {
    (sh.w.2 * sh.n.1, sh.n.2 * sh.e.1, sh.e.2 * sh.s.1, sh.s.2 * sh.w.1)
  }

  /** The shapes `create_q_node` uses for a qubit: the bulk shapes of its
      column parity, modified for an edge or corner tag. A v-node in the
      south-west corner is an error. */
  function QNodeShapes(hNode: bool, evenColumn: bool, compassDirection: string): (r: Result<NodeShapes, ShapeError>)
    ensures r.Failure? <==> !hNode && compassDirection == "sw"
    ensures r.Failure? ==> r.error == ValueError(SwCornerMessage)
    ensures r.Success? ==> ShapesAgree(r.value)
    ensures r.Success? ==>
              SingletonLegs(r.value.q) ==
              (if IsEdgeTag(compassDirection) then 1 else if IsCornerTag(compassDirection) then 2 else 0)
    ensures r.Success? && !IsEdgeTag(compassDirection) && !IsCornerTag(compassDirection) ==>
              CombinedShape(r.value) == (4, 2, 4, 2)
  {
    var bulk :=
      if evenColumn then NodeShapes((2, 2, 2, 2), (2, 2, 2), (2, 1, 2), (2, 2, 2), (2, 1, 2))
      else NodeShapes((2, 2, 2, 2), (2, 2, 1), (2, 2, 2), (2, 2, 1), (2, 2, 2));
    if hNode then
      Success(
        if compassDirection == "n" then
          bulk.(q := (2, 2, 2, 1), n := (2, 1, 2), w := (1, 1, 1))
        else if compassDirection == "ne" then
          bulk.(q := (1, 2, 2, 1), n := (1, 1, 1), e := (2, 1, 2), w := (1, 1, 1))
        else if compassDirection == "e" then
          bulk.(q := (1, 2, 2, 2), n := (1, 1, 1), e := (2, 1, 2))
        else if compassDirection == "se" then
          bulk.(q := (1, 1, 2, 2), n := (1, 1, 1), e := (1, 1, 1), s := (2, 1, 2))
        else if compassDirection == "s" then
          bulk.(q := (2, 1, 2, 2), e := (1, 1, 1), s := (2, 1, 2))
        else if compassDirection == "sw" then
          bulk.(q := (2, 1, 1, 2), e := (1, 1, 1), s := (1, 1, 1), w := (2, 1, 2))
        else if compassDirection == "w" then
          bulk.(q := (2, 2, 1, 2), s := (1, 1, 1), w := (2, 1, 2))
        else if compassDirection == "nw" then
          bulk.(q := (2, 2, 1, 1), n := (2, 1, 2), s := (1, 1, 1), w := (1, 1, 1))
        else bulk)
    else if compassDirection == "n" then
      Success(bulk.(q := (1, 2, 2, 2), n := (1, 1, 1), w := (2, 2, 1)))
    else if compassDirection == "ne" then
      Success(bulk.(q := (1, 1, 2, 2), n := (1, 1, 1), e := (1, 1, 1), w := (2, 2, 1)))
    else if compassDirection == "e" then
      Success(bulk.(q := (2, 1, 2, 2), n := (2, 2, 1), e := (1, 1, 1)))
    else if compassDirection == "se" then
      Success(bulk.(q := (2, 1, 1, 2), n := (2, 2, 1), e := (1, 1, 1), s := (1, 1, 1)))
    else if compassDirection == "s" then
      Success(bulk.(q := (2, 2, 1, 2), e := (2, 2, 1), s := (1, 1, 1)))
    else if compassDirection == "sw" then
      Failure(ValueError(SwCornerMessage))
    else if compassDirection == "w" then
      Success(bulk.(q := (2, 2, 2, 1), s := (2, 2, 1), w := (1, 1, 1)))
    else if compassDirection == "nw" then
      Success(bulk.(q := (1, 2, 2, 1), n := (1, 1, 1), s := (2, 2, 1), w := (1, 1, 1)))
    else
      Success(bulk)
  }

  /** Entry (i, j, k, l) comes before entry (n, e, s, w) in `np.ndindex` order. */
  predicate Before(i: int, j: int, k: int, l: int, n: int, e: int, s: int, w: int) {
    i < n || (i == n && (j < e || (j == e && (k < s || (k == s && l < w)))))
  }

  /** The loop `for n, e, s, w in np.ndindex(q_node.shape)` that sets every
      entry of the node to `value` of its index. */
  method Fill<T>(node: array4<T>, value: (nat, nat, nat, nat) -> T)
    modifies node
    ensures forall i, j, k, l | 0 <= i < node.Length0 && 0 <= j < node.Length1
          && 0 <= k < node.Length2 && 0 <= l < node.Length3 ::
              node[i, j, k, l] == value(i, j, k, l)
  {
    var n := 0;
    while n < node.Length0
      invariant 0 <= n <= node.Length0
      invariant forall i, j, k, l | 0 <= i < node.Length0 && 0 <= j < node.Length1
                  && 0 <= k < node.Length2 && 0 <= l < node.Length3
                  && i < n :: node[i, j, k, l] == value(i, j, k, l)
    {
      var e := 0;
      while e < node.Length1
        invariant 0 <= e <= node.Length1
        invariant forall i, j, k, l | 0 <= i < node.Length0 && 0 <= j < node.Length1
                    && 0 <= k < node.Length2 && 0 <= l < node.Length3
                    && Before(i, j, k, l, n, e, 0, 0) :: node[i, j, k, l] == value(i, j, k, l)
      {
        var s := 0;
        while s < node.Length2
          invariant 0 <= s <= node.Length2
          invariant forall i, j, k, l | 0 <= i < node.Length0 && 0 <= j < node.Length1
                      && 0 <= k < node.Length2 && 0 <= l < node.Length3
                      && Before(i, j, k, l, n, e, s, 0) :: node[i, j, k, l] == value(i, j, k, l)
        {
          var w := 0;
          while w < node.Length3
            invariant 0 <= w <= node.Length3
            invariant forall i, j, k, l | 0 <= i < node.Length0 && 0 <= j < node.Length1
                        && 0 <= k < node.Length2 && 0 <= l < node.Length3
                        && Before(i, j, k, l, n, e, s, w) :: node[i, j, k, l] == value(i, j, k, l)
          {
            node[n, e, s, w] := value(n, e, s, w);
            w := w + 1;
          }
          s := s + 1;
        }
        e := e + 1;
      }
      n := n + 1;
    }
  }

  /** A q-node and the shape of the combined node built from it. */
  datatype QNode<T> = QNode(values: array4<T>, shape: Shape4)

  /** `create_q_node` up to the einsum: looks up the shapes, fills every entry
      of a fresh q-node with its node value, and derives the combined shape. */
  method CreateQNode<T(0)>(dist: Distribution<T>, f: Op, hNode: bool, evenColumn: bool,
                           compassDirection: string)
    returns (r: Result<QNode<T>, ShapeError>)
    ensures QNodeShapes(hNode, evenColumn, compassDirection).Failure? ==>
              r == Failure(QNodeShapes(hNode, evenColumn, compassDirection).error)
    ensures QNodeShapes(hNode, evenColumn, compassDirection).Success? ==>
              var sh := QNodeShapes(hNode, evenColumn, compassDirection).value;
              && r.Success? && fresh(r.value.values)
              && r.value.shape == CombinedShape(sh)
              && r.value.values.Length0 == sh.q.0 && r.value.values.Length1 == sh.q.1
              && r.value.values.Length2 == sh.q.2 && r.value.values.Length3 == sh.q.3
              && forall n, e, s, w | 0 <= n < sh.q.0 && 0 <= e < sh.q.1 && 0 <= s < sh.q.2 && 0 <= w < sh.q.3 ::
                   r.value.values[n, e, s, w] == NodeValue(dist, f, hNode, n, e, s, w, evenColumn)
  {
    var shapes := QNodeShapes(hNode, evenColumn, compassDirection);
    if shapes.Failure? {
      return Failure(shapes.error);
    }
    var sh := shapes.value;
    var node := new T[sh.q.0, sh.q.1, sh.q.2, sh.q.3];
    Fill(node, (n: nat, e: nat, s: nat, w: nat) => NodeValue(dist, f, hNode, n, e, s, w, evenColumn));
    r := Success(QNode(node, CombinedShape(sh)));
  }
}
