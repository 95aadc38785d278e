/** Camera geometry of the coordinate mapper over ideal real arithmetic:
    per-stream intrinsics and pairwise extrinsics as the driver reports them,
    projection of a 3D point to a pixel (`Map3DTo2D`), back-projection of a
    pixel at a given depth (`Map2DTo3D`) and the rigid transform between
    streams (`MapWorldToWorld`). */
module Projection {

  datatype Vector2D = Vector2D(x: real, y: real)
  datatype Vector3D = Vector3D(x: real, y: real, z: real)

  /** The driver's lens distortion models; `NoDistortion` is the driver's `None`. */
  datatype Distortion =
    | NoDistortion | ModifiedBrownConrady | InverseBrownConrady | Ftheta | BrownConrady | KannalaBrandt4

  /** The driver always reports five distortion coefficients, a 3x3 rotation
      and a 3-vector translation. */
  type Coeffs = s: seq<real> | |s| == 5 witness [0.0, 0.0, 0.0, 0.0, 0.0]
  type Rotation = s: seq<real> | |s| == 9 witness [1.0, 0.0, 0.0, 0.0, 1.0, 0.0, 0.0, 0.0, 1.0]
  type Translation = s: seq<real> | |s| == 3 witness [0.0, 0.0, 0.0]

  datatype Intrinsics = Intrinsics(
    width: int,
    height: int,
    ppx: real,
    ppy: real,
    fx: real,
    fy: real,
    model: Distortion,
    coeffs: Coeffs)

  datatype Extrinsics = Extrinsics(rotation: Rotation, translation: Translation)

  /** The Ftheta warp `(x, y, k0) -> (x', y')` of normalised image coordinates.
      It needs a square root, an arc tangent and a tangent, so callers supply it. */
  type FthetaWarp = (real, real, real) -> Vector2D

  /** The models for which neither projection nor back-projection distorts. */
  predicate IsUndistorted(model: Distortion)
  {
    model != ModifiedBrownConrady && model != InverseBrownConrady && model != Ftheta
  }

  /** Back-projection divides by both focal lengths. */
  predicate HasFocalLengths(i: Intrinsics)
  {
    i.fx != 0.0 && i.fy != 0.0
  }

  /** The forward Modified Brown-Conrady distortion as the mapper writes it: the
      radial factor scales x and y first, and the tangential terms then use the
      scaled coordinates with the unscaled radius. */
  function ModifiedBrownConradyDistort(x: real, y: real, k: Coeffs): (r: Vector2D)
    ensures x == 0.0 && y == 0.0 ==> r == Vector2D(0.0, 0.0)
    ensures k[2] == 0.0 && k[3] == 0.0 ==> r.x * y == r.y * x
  {
    var r2 := x * x + y * y;
    var f := 1.0 + k[0] * r2 + k[1] * r2 * r2 + k[4] * r2 * r2 * r2;
    var xs := x * f;
    var ys := y * f;
    Vector2D(xs + 2.0 * k[2] * xs * ys + k[3] * (r2 + 2.0 * xs * xs),
             ys + 2.0 * k[3] * xs * ys + k[2] * (r2 + 2.0 * ys * ys))
  }

  /** The Inverse Brown-Conrady correction applied by back-projection. */
  function InverseBrownConradyUndistort(x: real, y: real, k: Coeffs): (r: Vector2D)
  {
    var r2 := x * x + y * y;
    var f := 1.0 + k[0] * r2 + k[1] * r2 * r2 + k[4] * r2 * r2 * r2;
    Vector2D(x * f + 2.0 * k[2] * x * y + k[3] * (r2 + 2.0 * x * x),
             y * f + 2.0 * k[3] * x * y + k[2] * (r2 + 2.0 * y * y))
  }

  /** The Inverse Brown-Conrady correction keeps the image centre where it is,
      and without the tangential terms it only rescales a point radially, so
      the point stays on its ray through the centre. */
  lemma InverseBrownConradyKeepsRays(x: real, y: real, k: Coeffs)
    ensures x == 0.0 && y == 0.0 ==> InverseBrownConradyUndistort(x, y, k) == Vector2D(0.0, 0.0)
    ensures k[2] == 0.0 && k[3] == 0.0 ==>
      var r := InverseBrownConradyUndistort(x, y, k); r.x * y == r.y * x
  {
    var r2 := x * x + y * y;
    var f := 1.0 + k[0] * r2 + k[1] * r2 * r2 + k[4] * r2 * r2 * r2;
    if k[2] == 0.0 && k[3] == 0.0 {
      assert InverseBrownConradyUndistort(x, y, k) == Vector2D(x * f, y * f);
    }
  }

  /** The perspective divide: the normalised image coordinates of a point. */
  function PerspectiveDivide(p: Vector3D): (n: Vector2D)
    requires p.z != 0.0
    ensures n.x * p.z == p.x && n.y * p.z == p.y
  {
    Vector2D(p.x / p.z, p.y / p.z)
  }

  /** The forward distortion the model selects; other models pass through. */
  function Distort(i: Intrinsics, n: Vector2D, ftheta: FthetaWarp): (d: Vector2D)
    ensures i.model != ModifiedBrownConrady && i.model != Ftheta ==> d == n
  {
    if i.model == ModifiedBrownConrady then ModifiedBrownConradyDistort(n.x, n.y, i.coeffs)
    else if i.model == Ftheta then ftheta(n.x, n.y, i.coeffs[0])
    else n
  }

  /** `Map3DTo2D`: perspective divide, then the model's distortion, then focal
      scaling and the principal-point offset. Without distortion the pixel obeys
      the pinhole equations `(u - ppx) * Z == X * fx` and `(v - ppy) * Z == Y * fy`. */
  function Map3DTo2D(i: Intrinsics, p: Vector3D, ftheta: FthetaWarp): (r: Vector2D)
    requires p.z != 0.0
    ensures i.model != ModifiedBrownConrady && i.model != Ftheta ==>
      (r.x - i.ppx) * p.z == p.x * i.fx && (r.y - i.ppy) * p.z == p.y * i.fy
  {
    var d := Distort(i, PerspectiveDivide(p), ftheta);
    Vector2D(d.x * i.fx + i.ppx, d.y * i.fy + i.ppy)
  }

  /** The back-projected ray of a pixel at unit depth: principal point and
      focal length removed, then the Inverse Brown-Conrady correction for that
      model. Without it the ray obeys the pinhole equations. */
  function NormalisedRay(i: Intrinsics, pixel: Vector2D): (u: Vector2D)
    requires HasFocalLengths(i)
    ensures i.model != InverseBrownConrady ==>
      u.x * i.fx == pixel.x - i.ppx && u.y * i.fy == pixel.y - i.ppy
  {
    var x := (pixel.x - i.ppx) / i.fx;
    var y := (pixel.y - i.ppy) / i.fy;
    if i.model == InverseBrownConrady then InverseBrownConradyUndistort(x, y, i.coeffs) else Vector2D(x, y)
  }

  /** `Map2DTo3D`: the pixel's ray scaled by the depth. The result always lies
      at `Z == depth`, and without distortion it obeys the pinhole equations. */
  function Map2DTo3D(i: Intrinsics, pixel: Vector2D, depth: real): (r: Vector3D)
    requires HasFocalLengths(i)
    ensures r.z == depth
    ensures i.model != InverseBrownConrady ==>
      r.x * i.fx == depth * (pixel.x - i.ppx) && r.y * i.fy == depth * (pixel.y - i.ppy)
  {
    var u := NormalisedRay(i, pixel);
    assert i.model != InverseBrownConrady ==> depth * u.x * i.fx == depth * (pixel.x - i.ppx);
    assert i.model != InverseBrownConrady ==> depth * u.y * i.fy == depth * (pixel.y - i.ppy);
    PointOnRay(u, depth)
  }

  /** The point at `depth` on the ray through `(u.x, u.y, 1)`. */
  function PointOnRay(u: Vector2D, depth: real): Vector3D
  {
    Vector3D(depth * u.x, depth * u.y, depth)
  }

  /** `MapWorldToWorld`: rotation (stored column by column) plus translation. */
  function MapWorldToWorld(p: Vector3D, e: Extrinsics): (q: Vector3D)
    ensures p == Vector3D(0.0, 0.0, 0.0) ==> q == Vector3D(e.translation[0], e.translation[1], e.translation[2])
    ensures p == Vector3D(1.0, 0.0, 0.0) ==>
      q == Vector3D(e.rotation[0] + e.translation[0], e.rotation[1] + e.translation[1], e.rotation[2] + e.translation[2])
    ensures p == Vector3D(0.0, 1.0, 0.0) ==>
      q == Vector3D(e.rotation[3] + e.translation[0], e.rotation[4] + e.translation[1], e.rotation[5] + e.translation[2])
    ensures p == Vector3D(0.0, 0.0, 1.0) ==>
      q == Vector3D(e.rotation[6] + e.translation[0], e.rotation[7] + e.translation[1], e.rotation[8] + e.translation[2])
  {
    var r := e.rotation;
    var t := e.translation;
    Vector3D(r[0] * p.x + r[3] * p.y + r[6] * p.z + t[0],
             r[1] * p.x + r[4] * p.y + r[7] * p.z + t[1],
             r[2] * p.x + r[5] * p.y + r[8] * p.z + t[2])
  }

  const IdentityExtrinsics := Extrinsics([1.0, 0.0, 0.0, 0.0, 1.0, 0.0, 0.0, 0.0, 1.0], [0.0, 0.0, 0.0])

  /** The identity extrinsics leave every point where it is. */
  lemma IdentityExtrinsicsFixPoints(p: Vector3D)
    ensures MapWorldToWorld(p, IdentityExtrinsics) == p
  {
  }

  /** A pure translation shifts every point by the translation vector. */
  lemma TranslationOnlyShifts(p: Vector3D, t: Translation)
    ensures MapWorldToWorld(p, Extrinsics(IdentityExtrinsics.rotation, t)) == Vector3D(p.x + t[0], p.y + t[1], p.z + t[2])
  {
  }

  function Scale(p: Vector3D, k: real): Vector3D
  {
    Vector3D(k * p.x, k * p.y, k * p.z)
  }

  lemma QuotientUnderScaling(a: real, z: real, k: real)
    requires z != 0.0 && k != 0.0
    ensures (k * a) / (k * z) == a / z
  {
    calc {
      (k * a) / (k * z);
      == { assert (k * a) == (a / z) * (k * z); }
      a / z;
    }
  }

  /** Projection only sees the ray through the point: scaling a point by any
      non-zero factor gives the same pixel, for every distortion model. */
  lemma ProjectionIsRayInvariant(i: Intrinsics, p: Vector3D, k: real, ftheta: FthetaWarp)
    requires p.z != 0.0 && k != 0.0
    ensures Map3DTo2D(i, Scale(p, k), ftheta) == Map3DTo2D(i, p, ftheta)
  {
    QuotientUnderScaling(p.x, p.z, k);
    QuotientUnderScaling(p.y, p.z, k);
    assert PerspectiveDivide(Scale(p, k)) == PerspectiveDivide(p);
  }

  /** Back-projection is linear in the depth: every depth lands on one ray. */
  lemma BackProjectionIsARay(i: Intrinsics, pixel: Vector2D, depth: real)
    requires HasFocalLengths(i)
    ensures Map2DTo3D(i, pixel, depth) == Scale(Map2DTo3D(i, pixel, 1.0), depth)
  {
    ScalingTheUnitPoint(NormalisedRay(i, pixel), depth);
  }

  /** Scaling a ray's point at depth 1 by `depth` gives its point at `depth`. */
  lemma ScalingTheUnitPoint(u: Vector2D, depth: real)
    ensures Scale(PointOnRay(u, 1.0), depth) == PointOnRay(u, depth)
  {
  }

  /** Without distortion, back-projecting a pixel at a non-zero depth and
      projecting it again gives the pixel back. */
  lemma PixelRoundTrip(i: Intrinsics, pixel: Vector2D, depth: real, ftheta: FthetaWarp)
    requires IsUndistorted(i.model) && HasFocalLengths(i) && depth != 0.0
    ensures Map3DTo2D(i, Map2DTo3D(i, pixel, depth), ftheta) == pixel
  {
    var p := Map2DTo3D(i, pixel, depth);
    var r := Map3DTo2D(i, p, ftheta);
    assert (r.x - i.ppx) * depth == depth * (pixel.x - i.ppx) by {
      assert (r.x - i.ppx) * depth == p.x * i.fx;
    }
    assert (r.y - i.ppy) * depth == depth * (pixel.y - i.ppy) by {
      assert (r.y - i.ppy) * depth == p.y * i.fy;
    }
  }

  /** Without distortion, projecting a point and back-projecting the pixel at the
      point's own depth gives the point back. */
  lemma PointRoundTrip(i: Intrinsics, p: Vector3D, ftheta: FthetaWarp)
    requires IsUndistorted(i.model) && HasFocalLengths(i) && p.z != 0.0
    ensures Map2DTo3D(i, Map3DTo2D(i, p, ftheta), p.z) == p
  {
    var pixel := Map3DTo2D(i, p, ftheta);
    var q := Map2DTo3D(i, pixel, p.z);
    assert q.x * i.fx == p.x * i.fx;
    assert q.y * i.fy == p.y * i.fy;
  }

  /** With all coefficients zero, both Brown-Conrady variants leave the
      normalised coordinates unchanged. */
  lemma ZeroCoefficientsDoNotDistort(x: real, y: real)
    ensures ModifiedBrownConradyDistort(x, y, [0.0, 0.0, 0.0, 0.0, 0.0]) == Vector2D(x, y)
    ensures InverseBrownConradyUndistort(x, y, [0.0, 0.0, 0.0, 0.0, 0.0]) == Vector2D(x, y)
  {
  }
}
