# Rotated planar G81 code, Pauli and RMPS decoder helpers — a Dafny model

This project models the lattice logic of a rotated planar surface code whose
plaquettes are Clifford-deformed to XZXZ/ZXZX (the "G81" code). The code is
built on qecsim, and the model covers four parts:

- **The code** (`rotated_planar_g81_code.dfy`, module `G81Code`): distance
  validation in the constructor, the `label` and `repr` strings, and the rule
  that assigns each plaquette its type, ZX/ZX or XZ/XZ.
- **The Pauli operator** (`rotated_planar_g81_pauli.dfy`, module `G81Pauli`):
  a class whose `ops` map holds the single-qubit Pauli on every lattice site.
  Its methods `Site`, `Plaquette`, `LogicalX` and `LogicalZ` update it in
  place. `Site` stands for qecsim's `site`: it composes the operator into the
  site by XOR of the binary symplectic bits, and it ignores indices outside
  the lattice.
- **The reference recovery of the decoder** (`rotated_planar_g81_rmps_decoder.dfy`,
  module `G81Decoder`): `sample_recovery` lays one path per violated
  plaquette. The result is proved equal to a closed form that depends only on
  the set of plaquettes, whatever order they are visited in.
- **The tensor network creator** (`tensor_network_creator.dfy`, module
  `TensorNetworkCreator`):
  - the value of each h-node and v-node entry;
  - the table of leg shapes for bulk, edge and corner qubits;
  - the combined node shape;
  - the loop that fills the q-node array.

`syndrome_consistency.dfy` holds two further modules:

- `G81Syndrome` measures plaquettes against a frame. It proves, for any
  lattice size:
  - the recovery reproduces its syndrome whenever the paths separate the
    plaquettes;
  - two plaquettes commute when the sites they share lie on the lattice;
  - each logical operator anticommutes with exactly two plaquette indices,
    none of which is a plaquette at distance 3;
  - the two logical operators anticommute.
- `G81Distance3` applies those results to the distance-3 lattice drawn in
  the code's docstring. It also holds the counterexamples for the plaquette
  type rule as written (see "## Findings").

`paulis.dfy` (module `Paulis`) holds the single-qubit Paulis: binary
symplectic form, composition and commutation. `results.dfy` holds the
`Result` type used for error paths.

## Model

| member | source | states |
|---|---|---|
| `G81Code.New` | src/rotated_planar_g81_code.py:66-83 | A distance is accepted iff it is an integer, at least 3 and odd. A non-integer gives TypeError "… invalid parameter type". Below 3 gives ValueError "… minimum distance is 3.", and this check runs before the parity check. An even distance of at least 3 gives ValueError "… size must be odd.". An accepted code keeps the given distance. |
| `G81Code.SiteBounds` | src/rotated_planar_g81_code.py:83 | A code of distance d has a d×d lattice: the largest site index is d−1 in both directions, at least 2 and even. |
| `G81Code.DecimalString` | src/rotated_planar_g81_code.py:90 | Python's decimal text of the distance, as also written by `repr` at line 95: non-empty, only the digits 0–9, and no leading zero unless the number is 0. |
| `G81Code.DecimalRoundTrip` | src/rotated_planar_g81_code.py:90 | The decimal string of a number parses back to that number. |
| `G81Code.Label` | src/rotated_planar_g81_code.py:87-90 | `label` is "Rotated planar XZ " followed by decimal digits with no leading zero that read back as the distance. |
| `G81Code.Repr` | src/rotated_planar_g81_code.py:94-95 | `repr` is "RotatedPlanarXZCode(" followed by decimal digits with no leading zero that read back as the distance, then ")". |
| `G81Code.LabelAndReprIdentifyCode` | src/rotated_planar_g81_code.py:87-95 | Two codes have the same `label` iff they are the same code, and likewise for `repr`. |
| `G81Code.PlaquetteType` | src/rotated_planar_g81_pauli.py:43 | The corrected type rule that `Plaquette` uses: ZX/ZX exactly on even rows. It departs from the x − y rule of this line and of the docstring at src/rotated_planar_g81_code.py:30-31 (see "## Findings"). |
| `G81Code.PlaquetteTypeAsWritten` | src/rotated_planar_g81_pauli.py:43 | The `abs(x − y) % 2` test picks XZ/XZ exactly when (x − y) % 2 == 1, as the docstring at code.py:30-31 says. |
| `Paulis.FromBits` | src/RotatedPlanarG81RMPSDecoder.py:206-215 | The Pauli built from a pair of bits has exactly those X and Z bits. |
| `Paulis.BitsRoundTrip` | src/RotatedPlanarG81RMPSDecoder.py:206-215 | Converting a Pauli to bits and back gives the same Pauli. |
| `Paulis.Mul` | src/RotatedPlanarG81RMPSDecoder.py:211-213 | Composition is XOR of the binary symplectic bits. I is its identity, and every Pauli is its own inverse. |
| `Paulis.MulGroup` | src/RotatedPlanarG81RMPSDecoder.py:145-183 | Composition is commutative and associative, and composing with b twice cancels. This is why the order of `site` calls does not matter. |
| `Paulis.AnticommuteMul` | src/rotated_planar_g81_pauli.py:43-56 | The symplectic product is linear in the first operand. |
| `Paulis.Sites` | src/rotated_planar_g81_code.py:27 | The sites are exactly the (x, y) with 0 ≤ x ≤ max_site_x and 0 ≤ y ≤ max_site_y. |
| `G81Pauli.CornerOp` | src/rotated_planar_g81_pauli.py:27-30 | A plaquette acts on its four corners and nowhere else, never with Y. A ZX/ZX plaquette puts Z on the west corners and X on the east corners, and XZ/XZ does the opposite. |
| `G81Pauli.CornerOpKindsSwap` | src/rotated_planar_g81_pauli.py:43-56 | The XZ/XZ plaquette is the ZX/ZX plaquette with X and Z exchanged. |
| `G81Pauli.LogicalXOp` | src/rotated_planar_g81_pauli.py:73-78 | `logical_x` touches exactly row 0 for x = 0..max_site_x, with X at even x and Z at odd x. |
| `G81Pauli.LogicalZOp` | src/rotated_planar_g81_pauli.py:95-96 | `logical_z` puts Z exactly on column max_site_x for y = 0..max_site_y. |
| `G81Pauli.RotatedPlanarG81Pauli.constructor` | src/rotated_planar_g81_code.py:97-110 | `new_pauli()` is the identity on every site of the lattice. |
| `G81Pauli.RotatedPlanarG81Pauli.Site` | src/rotated_planar_g81_pauli.py:45-48 | `site(op, index)` composes op into the Pauli on index. Every other site is unchanged, and an index off the lattice changes nothing. |
| `G81Pauli.RotatedPlanarG81Pauli.Plaquette` | src/rotated_planar_g81_pauli.py:20-58 | Off the plaquette bounds nothing changes. Otherwise every site is composed with the plaquette operator, which acts on the four corners only and takes its type from the row (see "## Findings"). |
| `G81Pauli.RotatedPlanarG81Pauli.PlaquetteAsWritten` | src/rotated_planar_g81_pauli.py:38-58 | The same update, with the type test written as `abs(x − y) % 2 == 0`. |
| `G81Pauli.RotatedPlanarG81Pauli.LogicalX` | src/rotated_planar_g81_pauli.py:61-80 | After the loop, every site is composed with `LogicalXOp`. |
| `G81Pauli.RotatedPlanarG81Pauli.LogicalZ` | src/rotated_planar_g81_pauli.py:83-98 | After the loop, every site is composed with `LogicalZOp`. |
| `G81Pauli.RotatedPlanarG81Pauli.PlaquetteTwice` | src/rotated_planar_g81_pauli.py:45-56 | Applying the same plaquette twice restores the original Pauli. |
| `G81Pauli.RotatedPlanarG81Pauli.LogicalXTwice` | src/rotated_planar_g81_pauli.py:74-78 | Applying `logical_x` twice restores the original Pauli. |
| `G81Pauli.RotatedPlanarG81Pauli.LogicalZTwice` | src/rotated_planar_g81_pauli.py:96 | Applying `logical_z` twice restores the original Pauli. |
| `G81Decoder.PathOp` | src/RotatedPlanarG81RMPSDecoder.py:150-183 | For even x − y, the path lies in row y (y even) or row y+1 (y odd), for x from the plaquette's x down to 0, with X at even x and Z at odd x. For odd x − y, it is Z in column x (x even) or column x+1 (x odd), for y = 0..plaquette y. No other site is touched. |
| `G81Decoder.PathsAt` | src/RotatedPlanarG81RMPSDecoder.py:145-183 | A site of the composed recovery carries X (Z) iff an odd number of paths put X (Z) there. With no violated plaquette it is I. |
| `G81Decoder.RecoveryFrame` | src/RotatedPlanarG81RMPSDecoder.py:140-145 | The recovery covers exactly the lattice sites. For an empty plaquette set it is the identity. |
| `G81Decoder.PathsAtRemove` | src/RotatedPlanarG81RMPSDecoder.py:145-183 | Whichever plaquette is laid last, the result is the same, so the recovery does not depend on the visiting order. |
| `G81Decoder.PathsAtSingleton` | src/RotatedPlanarG81RMPSDecoder.py:145-183 | A single violated plaquette gives exactly its own path. |
| `G81Decoder.ParityOfInsert` | src/RotatedPlanarG81RMPSDecoder.py:145-183 | Adding a new plaquette flips the parity of a count. |
| `G81Decoder.ApplyRowPath` | src/RotatedPlanarG81RMPSDecoder.py:150-170 | The row loop composes every site with the plaquette's path. |
| `G81Decoder.RowPathStep` | src/RotatedPlanarG81RMPSDecoder.py:159-163 | Laying the site at x extends the laid part of the row path from the sites right of x to the sites right of x − 1. |
| `G81Decoder.ApplyColumnPath` | src/RotatedPlanarG81RMPSDecoder.py:173-183 | The column loop composes every site with the plaquette's path. |
| `G81Decoder.ColumnPathStep` | src/RotatedPlanarG81RMPSDecoder.py:178-179 | Laying the site at y extends the laid part of the column path from the sites below y to the sites below y + 1. |
| `G81Decoder.SampleRecovery` | src/RotatedPlanarG81RMPSDecoder.py:127-186 | Returns a fresh Pauli on the code's lattice equal to `RecoveryFrame` of the plaquette set, for any visiting order. |
| `G81Decoder.RecoveryFrameOf` | src/RotatedPlanarG81RMPSDecoder.py:140-186 | A lattice frame holding the composed paths of S on every site is the reference recovery of S. |
| `TensorNetworkCreator.PauliToBsf` | src/RotatedPlanarG81RMPSDecoder.py:206-207 | The bsf of a Pauli is a pair of bits that converts back to that Pauli. |
| `TensorNetworkCreator.BsfToPauli` | src/RotatedPlanarG81RMPSDecoder.py:215 | `bsf_to_pauli` is the inverse of `pauli_to_bsf`. |
| `TensorNetworkCreator.HNodeOp` | src/RotatedPlanarG81RMPSDecoder.py:209-213 | The source's mod-2 sum is f composed with Z^(n+s)·X^(e+w) in an even column, and with X^(n+s)·Z^(e+w) in an odd column. |
| `TensorNetworkCreator.HNodeValue` | src/RotatedPlanarG81RMPSDecoder.py:202-215 | An entry takes the probability of that Pauli. With every leg 0 it is Pr(f). |
| `TensorNetworkCreator.VNodeValue` | src/RotatedPlanarG81RMPSDecoder.py:219-222 | A v-node entry, whose legs are rotated by one, equals the h-node entry of the other column parity. |
| `TensorNetworkCreator.HNodeOpColumnParity` | src/RotatedPlanarG81RMPSDecoder.py:210-213 | The odd-column formula is the even-column formula with X and Z exchanged. |
| `TensorNetworkCreator.HNodeOpDependsOnLegParities` | src/RotatedPlanarG81RMPSDecoder.py:209-215 | Two entries pick the same Pauli iff n+s and e+w have the same parities. So flipping both n and s, or both e and w, leaves the value unchanged. |
| `TensorNetworkCreator.HNodeOpBits` | src/RotatedPlanarG81RMPSDecoder.py:209-213 | The entry's X and Z bits are the frame's bits, flipped by the parity of n + s for one Pauli and of e + w for the other, depending on the column parity. |
| `TensorNetworkCreator.CombinedShape` | src/RotatedPlanarG81RMPSDecoder.py:347 | With legs of size 1 or 2, every combined leg has size 1, 2 or 4. |
| `TensorNetworkCreator.QNodeShapes` | src/RotatedPlanarG81RMPSDecoder.py:269-332 | The table fails exactly for a v-node in the SW corner, with "Cannot have v-node in SW corner of lattice.". Every other shape has legs of size 1 or 2, and each delta shares its first leg with the q-node. Edge tags give one size-1 q-node leg, corner tags two, and bulk none. A bulk combined node is (4, 2, 4, 2). |
| `TensorNetworkCreator.Fill` | src/RotatedPlanarG81RMPSDecoder.py:340-345 | The `np.ndindex` loop sets every entry of the array to the value of its index. |
| `TensorNetworkCreator.CreateQNode` | src/RotatedPlanarG81RMPSDecoder.py:269-347 | Returns the shape error when the table fails. Otherwise it returns a fresh q-node of the table's shape, every entry holding its node value, and the combined shape of line 347. |
| `G81Syndrome.PlaquetteFrame` | src/rotated_planar_g81_pauli.py:43-56 | A single plaquette's operator covers the lattice and equals the corner operator at every site. |
| `G81Syndrome.Syndrome` | src/RotatedPlanarG81RMPSDecoder.py:129 | The syndrome is the set of plaquettes whose measurement is 1. |
| `G81Syndrome.MeasureIsCommutation` | src/rotated_planar_g81_pauli.py:43-56 | Reading a plaquette off its four corners equals the symplectic product of the frame with the whole plaquette operator. |
| `G81Syndrome.MeasureCompose` | src/RotatedPlanarG81RMPSDecoder.py:145-183 | Measurement is linear in the frame. |
| `G81Syndrome.RecoveryFrameSingleton` | src/RotatedPlanarG81RMPSDecoder.py:145-183 | The recovery of a single plaquette is its path. |
| `G81Syndrome.RecoveryFrameRemove` | src/RotatedPlanarG81RMPSDecoder.py:145-183 | The recovery of S is the recovery of S without p, composed with p's path. |
| `G81Syndrome.RecoveryMeasure` | src/RotatedPlanarG81RMPSDecoder.py:129 | The recovery lights a plaquette iff an odd number of its paths light it. |
| `G81Syndrome.RecoveryLights` | src/RotatedPlanarG81RMPSDecoder.py:129 | When every path lights only its own plaquette, the recovery lights exactly the plaquettes of S. |
| `G81Syndrome.LightingSeparate` | src/RotatedPlanarG81RMPSDecoder.py:129 | When every path lights only its own plaquette, the paths of S that light q are exactly {q} if q is in S, and none otherwise. |
| `G81Syndrome.RecoveryReproducesSyndrome` | src/RotatedPlanarG81RMPSDecoder.py:128-131 | Under the same condition, the recovery for S has syndrome exactly S: "a sample Pauli consistent with the syndrome". |
| `G81Syndrome.CornerOpsCommute` | src/rotated_planar_g81_code.py:46-63 | On the unbounded plane, any two plaquettes typed by the row rule clash at an even number of corners. |
| `G81Syndrome.PlaquettesCommute` | src/rotated_planar_g81_code.py:46-63 | Two row-typed plaquettes commute whenever every site they share lies on the lattice. |
| `G81Syndrome.PlaquetteFlipsAt` | src/rotated_planar_g81_pauli.py:43-56 | At a corner of q that is on the lattice, or not shared with p, plaquette p flips q's reading iff the two plaquette operators anticommute there. |
| `G81Syndrome.LogicalXAgainstPlaquette` | src/rotated_planar_g81_pauli.py:73-78 | With an odd number of columns, `logical_x` anticommutes with a row-typed plaquette iff it is (max_site_x, 0) or (−1, −1). |
| `G81Syndrome.LogicalZAgainstPlaquette` | src/rotated_planar_g81_pauli.py:95-96 | With an odd number of rows, `logical_z` anticommutes with a row-typed plaquette iff it is (max_site_x, −1) or (max_site_x − 1, max_site_y). |
| `G81Syndrome.LogicalClashes` | src/rotated_planar_g81_pauli.py:61-98 | The two logicals clash only at (max_site_x, 0), and only when max_site_x is even. |
| `G81Syndrome.LogicalsAnticommute` | src/rotated_planar_g81_code.py:79-80 | For every accepted (odd) distance, `logical_x` and `logical_z` anticommute. |
| `G81Distance3.PathLights3` | src/RotatedPlanarG81RMPSDecoder.py:145-183 | At distance 3 the path of each plaquette lights that plaquette and no other. |
| `G81Distance3.PathsSeparate3` | src/RotatedPlanarG81RMPSDecoder.py:145-183 | The separation condition holds for the eight plaquettes of the distance-3 lattice. |
| `G81Distance3.SampleRecoveryReproducesSyndrome3` | src/RotatedPlanarG81RMPSDecoder.py:127-186 | At distance 3, for every set S of violated plaquettes, the recovery has syndrome exactly S. |
| `G81Distance3.StabilizersCommute3` | src/rotated_planar_g81_code.py:46-63 | At distance 3, the row-typed stabilizers commute pairwise. |
| `G81Distance3.LogicalsCommuteWithStabilizers3` | src/rotated_planar_g81_pauli.py:61-98 | At distance 3, both logicals commute with every row-typed stabilizer. |
| `G81Distance3.OriginPathAsWritten3` | src/rotated_planar_g81_pauli.py:43 | Under the (x − y) type rule, the path of (0, 0) anticommutes with plaquette (−1, 0). |
| `G81Distance3.SampleRecoveryAsWrittenFails3` | src/rotated_planar_g81_pauli.py:43 | Under the (x − y) rule, the recovery for {(0, 0)} also lights (−1, 0), so its syndrome is not {(0, 0)}. |
| `G81Distance3.StabilizersAsWrittenAnticommute3` | src/rotated_planar_g81_pauli.py:43 | Under the (x − y) rule, the stabilizers (0, 0) and (1, 1) anticommute. |
| `G81Distance3.LogicalXAsWrittenAnticommutes3` | src/rotated_planar_g81_pauli.py:43 | Under the (x − y) rule, `logical_x` anticommutes with stabilizer (−1, 0). |
| `G81Distance3.LogicalZAsWrittenAnticommutes3` | src/rotated_planar_g81_pauli.py:43 | Under the (x − y) rule, `logical_z` anticommutes with stabilizer (1, −1). |

## Left out

- qecsim members (`site_bounds`, `is_in_site_bounds`, `is_in_plaquette_bounds`, `syndrome_to_plaquette_indices`, `site`) are not shown. The bounds are parameters, `is_in_plaquette_bounds` is a function field of the Pauli class, and `sample_recovery` takes the set of violated plaquettes instead of a syndrome vector.
- The set of plaquettes for distances above 3 depends on qecsim's `is_in_plaquette_bounds`, so it is not part of this model. The general lemmas take the plaquette set or the shared-site condition as a hypothesis. Only the distance-3 set, read off the code's lattice diagram, is fixed.
- The coset-probability decode driver and the chi-truncated MPS contraction belong to qecsim's `RotatedPlanarRMPSDecoder` and use floating-point numerics. Probabilities are opaque values of any type.
- The delta tensors and the `np.einsum` absorption and reshape in `create_q_node` are foreign library calls. The model keeps the shape table, the fill loop and the combined-shape formula.
- The `functools.lru_cache` decorators affect only performance.
- The decoder `label` (float formatting of chi, mode and tol) is not modelled.
- The Pauli's `__repr__` and qecsim's `to_bsf` are not modelled. The Pauli is kept as a map from site to Pauli rather than a bit vector.
- `plaquette`, `logical_x` and `logical_z` return `self` for chaining. The methods return nothing, and the chaining is left out.
- `new_pauli` calls a module object (the import at src/rotated_planar_g81_code.py:5 binds the module, not the class). The constructor models `new_pauli` as returning the identity Pauli on the code's lattice, as its docstring says. The scripts' references to a `RotatedPlanarG81Code` class, which is named `RotatedPlanarXZCode` here, are not modelled.
- `new_pauli(bsf)` takes an optional binary symplectic vector, and the Pauli it returns is a view of that array, so changing one changes the other. Neither the argument nor the aliasing is modelled. The constructor models only `new_pauli()` with no argument, which is the only call `sample_recovery` makes.
- `compass_direction` is a string, and the empty string stands for `None` or any falsy value. Any tag not in the table falls through to the bulk shapes, as in the source.
- The experiment, plotting and data scripts (random trials, JSON I/O, matplotlib) are not modelled.
- `G81Pauli.RotatedPlanarG81Pauli.Plaquette`: types the plaquette by its row rather than by x − y (see "## Findings"). The source's own test is kept in `PlaquetteAsWritten`.
- `G81Code.PlaquetteType`: is the row rule, not the x − y rule of the docstring at src/rotated_planar_g81_code.py:30-31 (see "## Findings"). The source's rule is kept in `G81Code.PlaquetteTypeAsWritten`.

## Findings

| source | as written | input that shows it | evidently intended | confidence | as-written member | corrected member |
|---|---|---|---|---|---|---|
| src/rotated_planar_g81_pauli.py:43 | The plaquette type is chosen by `abs(x − y) % 2`, as the docstring at src/rotated_planar_g81_code.py:30-31 also states. | At distance 3, plaquettes (0, 0) and (1, 1) share only site (1, 1), where one applies X and the other Z, so they anticommute. `sample_recovery` for the syndrome {(0, 0)} also lights (−1, 0). `logical_x` anticommutes with (−1, 0), and `logical_z` with (1, −1). | Type by row parity: ZX/ZX on even rows and XZ/XZ on odd rows. This matches the lattice diagram at src/rotated_planar_g81_code.py:46-63 and the comments at src/RotatedPlanarG81RMPSDecoder.py:152 and 162. The h-node values at src/RotatedPlanarG81RMPSDecoder.py:209-213 also weigh the north/south legs with Z and the east/west legs with X in an even column, which matches row-typed corners. Under this rule two stabilizers commute whenever the sites they share lie on the lattice, and the logicals anticommute with each other, at every distance. At distance 3 the logicals also commute with every stabilizer and the recovery reproduces every syndrome. | high; not executed | `G81Pauli.RotatedPlanarG81Pauli.PlaquetteAsWritten` (with `G81Distance3.StabilizersAsWrittenAnticommute3`, `G81Distance3.SampleRecoveryAsWrittenFails3`) | `G81Pauli.RotatedPlanarG81Pauli.Plaquette` (with `G81Distance3.StabilizersCommute3`, `G81Distance3.SampleRecoveryReproducesSyndrome3`) |
