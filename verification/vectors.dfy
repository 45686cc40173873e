/**
 * Vector arithmetic over real triples, standing in for Unity's `Vector3`,
 * together with the two decomposition helpers of `Vector3Extensions`
 * (identical in both revisions of the repository).
 *
 * Square roots and trigonometry (magnitudes, general normalisation, angles
 * and rotations) are not computed: they are gathered in `Numerics`, an
 * oracle supplied by the caller.
 */
module Vectors {

  datatype Vec3 = Vec3(x: real, y: real, z: real)

  const Zero: Vec3 := Vec3(0.0, 0.0, 0.0)
  const Up: Vec3 := Vec3(0.0, 1.0, 0.0)
  const Down: Vec3 := Vec3(0.0, -1.0, 0.0)

  /** `float.Epsilon` (also `Mathf.Epsilon`), the smallest positive single. */
  const FloatEpsilon: real := 1.401298e-45

  /** `Vector3.kEpsilon`: `normalized` returns the zero vector at or below this magnitude. */
  const NormalizeEpsilon: real := 0.00001

  function Add(a: Vec3, b: Vec3): Vec3 {
    Vec3(a.x + b.x, a.y + b.y, a.z + b.z)
  }

  function Sub(a: Vec3, b: Vec3): Vec3 {
    Vec3(a.x - b.x, a.y - b.y, a.z - b.z)
  }

  function Scale(k: real, v: Vec3): Vec3 {
    Vec3(k * v.x, k * v.y, k * v.z)
  }

  function Dot(a: Vec3, b: Vec3): real {
    a.x * b.x + a.y * b.y + a.z * b.z
  }

  function Cross(a: Vec3, b: Vec3): Vec3 {
    Vec3(a.y * b.z - a.z * b.y, a.z * b.x - a.x * b.z, a.x * b.y - a.y * b.x)
  }

  function SqrMagnitude(v: Vec3): real {
    Dot(v, v)
  }

  function Abs(r: real): real {
    if r < 0.0 then -r else r
  }

  /**
   * `Vector3.ProjectOnPlane`: removes from `v` its component along
   * `normal`; a normal too short to divide by leaves `v` as it is.
   */
  function ProjectOnPlane(v: Vec3, normal: Vec3): (r: Vec3)
    ensures SqrMagnitude(normal) < FloatEpsilon ==> r == v
    ensures SqrMagnitude(normal) >= FloatEpsilon ==> Dot(r, normal) == 0.0
  {
    var sqrMag := Dot(normal, normal);
    if sqrMag < FloatEpsilon then v
    else
      var r := Sub(v, Scale(Dot(v, normal) / sqrMag, normal));
      ProjectionIsOrthogonal(v, normal, sqrMag);
      r
  }

  lemma ProjectionIsOrthogonal(v: Vec3, n: Vec3, sqrMag: real)
    requires sqrMag == Dot(n, n) && sqrMag > 0.0
    ensures Dot(Sub(v, Scale(Dot(v, n) / sqrMag, n)), n) == 0.0
  {
    var k := Dot(v, n) / sqrMag;
    calc {
      Dot(Sub(v, Scale(k, n)), n);
      Dot(v, n) - k * Dot(n, n);
      { assert k * sqrMag == Dot(v, n); }
      0.0;
    }
  }

  /**
   * Unity's `normalized` for a vector with only a vertical component:
   * its magnitude is `|y|`, so the unit vector is straight up or down,
   * and a magnitude of at most `NormalizeEpsilon` gives the zero vector.
   */
  function NormalizedVertical(y: real): (r: Vec3)
    ensures r.x == 0.0 && r.z == 0.0
    ensures Abs(y) > NormalizeEpsilon ==> r.y * y > 0.0 && Abs(r.y) == 1.0
    ensures Abs(y) <= NormalizeEpsilon ==> r == Zero
  {
    if y > NormalizeEpsilon then Up
    else if y < -NormalizeEpsilon then Down
    else Zero
  }

  /** `GetVerticalComponent`: `vector.y * Vector3.up`. */
  function VerticalComponent(v: Vec3): (r: Vec3)
    ensures r.x == 0.0 && r.z == 0.0 && r.y == v.y
  {
    Scale(v.y, Up)
  }

  /** `GetHorizontalComponent`: the projection on the plane normal to `Vector3.up`. */
  function HorizontalComponent(v: Vec3): (r: Vec3)
    ensures r == Vec3(v.x, 0.0, v.z)
  {
    ProjectOnPlane(v, Up)
  }

  /** The two components add back up to the vector. */
  lemma ComponentsSum(v: Vec3)
    ensures Add(VerticalComponent(v), HorizontalComponent(v)) == v
  {
  }

  /** Taking a component twice is taking it once. */
  lemma ComponentsIdempotent(v: Vec3)
    ensures VerticalComponent(VerticalComponent(v)) == VerticalComponent(v)
    ensures HorizontalComponent(HorizontalComponent(v)) == HorizontalComponent(v)
  {
  }

  /** Each component has nothing of the other. */
  lemma ComponentsAnnihilate(v: Vec3)
    ensures HorizontalComponent(VerticalComponent(v)) == Zero
    ensures VerticalComponent(HorizontalComponent(v)) == Zero
  {
  }

  /**
   * The float numerics the model leaves abstract: `magnitude` and
   * `normalized` of arbitrary vectors, `Vector3.Angle` (degrees), and
   * rotating a vector by `Quaternion.FromToRotation(from, to)` or by
   * `Quaternion.AngleAxis(degrees, axis)`.
   */
  datatype Numerics = Numerics(
    magnitude: Vec3 -> real,
    normalized: Vec3 -> Vec3,
    angle: (Vec3, Vec3) -> real,
    fromToRotate: (Vec3, Vec3, Vec3) -> Vec3,
    angleAxisRotate: (real, Vec3, Vec3) -> Vec3)
}
