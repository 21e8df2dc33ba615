/**
  The rotated planar G81 code (XZXZ/ZXZX plaquettes): construction-time
  validation of the distance, the `label` and `repr` strings, and the rule
  that decides the type of a plaquette. Lattice bounds beyond `site_bounds`
  belong to qecsim's `RotatedPlanarCode` and are not part of this module.
 */
module G81Code {
  import opened Paulis
  import opened Results

  /** qecsim's `RotatedPlanarCode.MIN_SIZE[0]`, the smallest allowed distance. */
  const MinSize: int := 3

  /** The `distance` argument as `operator.index` sees it: an integer, or a
      value it refuses (a float, a string, None, ...). */
  datatype Argument = Index(value: int) | NotIndex

  datatype CodeError = TypeError(message: string) | ValueError(message: string)

  /** A distance the constructor accepts. */
  type Distance = d: int | d >= MinSize && d % 2 == 1 witness 3

  /** A constructed code; it has `distance` rows and `distance` columns. */
  datatype Code = Code(distance: Distance)

  const ClassName: string := "RotatedPlanarXZCode"
  const MinDistanceMessage: string := ClassName + " minimum distance is 3."
  const OddSizeMessage: string := ClassName + " size must be odd."
  const InvalidTypeMessage: string := ClassName + " invalid parameter type"

  /** `RotatedPlanarXZCode(distance)`: the minimum-distance check runs before
      the parity check, and a non-integer argument is a TypeError. */
  function New(distance: Argument): (r: Result<Code, CodeError>)
    ensures r.Success? <==> distance.Index? && distance.value >= 3 && distance.value % 2 == 1
    ensures r.Success? ==> r.value.distance == distance.value
    ensures distance.NotIndex? ==> r == Failure(TypeError(InvalidTypeMessage))
    ensures distance.Index? && distance.value < 3 ==> r == Failure(ValueError(MinDistanceMessage))
    ensures distance.Index? && distance.value >= 3 && distance.value % 2 == 0 ==>
              r == Failure(ValueError(OddSizeMessage))
  {
    match distance
    case NotIndex => Failure(TypeError(InvalidTypeMessage))
    case Index(d) =>
      if d < MinSize then Failure(ValueError(MinDistanceMessage))
      else if d % 2 == 0 then Failure(ValueError(OddSizeMessage))
      else Success(Code(d))
  }

  /** qecsim's `site_bounds` for a distance-d code: the largest x and y. */
  function SiteBounds(code: Code): (r: (int, int))
    ensures r.0 == r.1 == code.distance - 1
    ensures r.0 >= 2 && r.0 % 2 == 0
  {
    (code.distance - 1, code.distance - 1)
  }

  /** The decimal digit for 0 <= k < 10. */
  function Digit(k: int): (c: char)
    requires 0 <= k < 10
    ensures '0' <= c <= '9' && c as int - '0' as int == k
  {
    ('0' as int + k) as char
  }

  /** Python's `str` of a non-negative integer. */
  function DecimalString(n: nat): (r: string)
    ensures |r| >= 1
    ensures forall i :: 0 <= i < |r| ==> '0' <= r[i] <= '9'
    ensures r[0] == '0' ==> n == 0
    decreases n
  {
    if n < 10 then [Digit(n)] else DecimalString(n / 10) + [Digit(n % 10)]
  }

  /** Reads a string of decimal digits back as a number. */
  function ParseDecimal(s: string): nat
    requires forall i :: 0 <= i < |s| ==> '0' <= s[i] <= '9'
  {
    if s == [] then 0
    else ParseDecimal(s[..|s| - 1]) * 10 + (s[|s| - 1] as int - '0' as int)
  }

  /** `DecimalString` loses nothing: parsing it gives the number back. */
  lemma {:induction false} DecimalRoundTrip(n: nat)
    ensures ParseDecimal(DecimalString(n)) == n
    decreases n
  {
    var r := DecimalString(n);
    if n >= 10 {
      DecimalRoundTrip(n / 10);
      assert r[..|r| - 1] == DecimalString(n / 10);
    }
  }

  /** `label`: 'Rotated planar XZ ' followed by the distance in canonical
      decimal (no leading zero), which can be read back from what follows the
      prefix. */
  function Label(code: Code): (r: string)
    ensures |r| > 18 && r[..18] == "Rotated planar XZ "
    ensures forall i :: 18 <= i < |r| ==> '0' <= r[i] <= '9'
    ensures r[18] != '0'
    ensures ParseDecimal(r[18..]) == code.distance
  {
    var digits := DecimalString(code.distance);
    var r := "Rotated planar XZ " + digits;
    DecimalRoundTrip(code.distance);
    assert r[18..] == digits;
    r
  }

  /** `repr`: 'RotatedPlanarXZCode(' distance ')', with the distance in
      canonical decimal (no leading zero) readable between the parentheses. */
  function Repr(code: Code): (r: string)
    ensures |r| > 21 && r[..20] == "RotatedPlanarXZCode(" && r[|r| - 1] == ')'
    ensures forall i :: 20 <= i < |r| - 1 ==> '0' <= r[i] <= '9'
    ensures r[20] != '0'
    ensures ParseDecimal(r[20..|r| - 1]) == code.distance
  {
    var digits := DecimalString(code.distance);
    var r := ClassName + "(" + digits + ")";
    DecimalRoundTrip(code.distance);
    assert r[20..|r| - 1] == digits;
    r
  }

  /** The label and the repr each name the code uniquely: two codes have the
      same label, or the same repr, iff they are the same code. */
  lemma LabelAndReprIdentifyCode(c1: Code, c2: Code)
    ensures Label(c1) == Label(c2) <==> c1 == c2
    ensures Repr(c1) == Repr(c2) <==> c1 == c2
  {
    if Label(c1) == Label(c2) {
      assert Label(c1)[18..] == Label(c2)[18..];
    }
    if Repr(c1) == Repr(c2) {
      assert Repr(c1)[20..|Repr(c1)| - 1] == Repr(c2)[20..|Repr(c2)| - 1];
    }
  }

  /** The two plaquette flavours: ZX/ZX has Z on its west corners and X on its
      east corners, XZ/XZ the other way round. */
  datatype PlaquetteKind = ZxZx | XzXz

  /** The type test as `plaquette` writes it, `abs(x - y) % 2 == 0` for ZX/ZX;
      it agrees with the documented `(x - y) % 2` rule for every index. */
  function PlaquetteTypeAsWritten(p: Index): (t: PlaquetteKind)
    ensures t == XzXz <==> (p.0 - p.1) % 2 == 1
  {
    var diff := p.0 - p.1;
    var absDiff := if diff < 0 then -diff else diff;
    if absDiff % 2 == 0 then ZxZx else XzXz
  }

  /** The type rule that makes the plaquettes commute: ZX/ZX on even rows and
      XZ/XZ on odd rows, as the lattice diagram of the code and the comments
      of the recovery builder draw it. */
  function PlaquetteType(p: Index): (t: PlaquetteKind)
    ensures t == ZxZx <==> p.1 % 2 == 0
  {
    if p.1 % 2 == 0 then ZxZx else XzXz
  }
}
