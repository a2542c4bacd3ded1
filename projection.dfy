// linesToPositions: back-projection of the 2D line segments found in a
// plane's mask onto that plane in 3D. Every endpoint (u, v) is the solution
// of a 3x3 system whose first row is the plane equation and whose other two
// rows say that the point lies on the camera ray through pixel (u, v).
// The source computes in single-precision floats; this model uses reals.
module Projection {

  /** Plane coefficients a*x + b*y + c*z + d = 0 (coeffs->values[0..3]). */
  datatype Plane = Plane(a: real, b: real, c: real, d: real)

  /** Pinhole intrinsics: focal lengths and principal point, in pixels.
      In the viewer, u0 and v0 start at -1 and are set to width/2 and
      height/2 only when the viewer is first initialised, which happens after
      the first segmentation; fx and fy are set only when reading from the
      device. They are inputs here. */
  datatype Intrinsics = Intrinsics(fx: real, fy: real, u0: real, v0: real)

  /** A 2D segment as produced by the Hough transform (cv::Vec4i):
      endpoints (x1, y1) and (x2, y2). */
  datatype Segment2 = Segment2(x1: int, y1: int, x2: int, y2: int)

  datatype Vec3 = Vec3(e0: real, e1: real, e2: real)

  /** A 3D point (pcl::PointXYZ). */
  datatype Point3 = Point3(x: real, y: real, z: real)

  /** A 3D segment: the two back-projected endpoints. */
  datatype LinePos = LinePos(first: Point3, second: Point3)

  /** A 3x3 matrix (cv::Matx33f), row by row. */
  datatype Mat33 = Mat33(m00: real, m01: real, m02: real,
                         m10: real, m11: real, m12: real,
                         m20: real, m21: real, m22: real)

  /** lines[i][k] for k in 0..3. */
  function Coord(l: Segment2, k: nat): int
    requires k < 4
  {
    if k == 0 then l.x1 else if k == 1 then l.y1 else if k == 2 then l.x2 else l.y2
  }

  function Det(m: Mat33): real {
    m.m00 * (m.m11 * m.m22 - m.m12 * m.m21)
    - m.m01 * (m.m10 * m.m22 - m.m12 * m.m20)
    + m.m02 * (m.m10 * m.m21 - m.m11 * m.m20)
  }

  function MulVec(m: Mat33, p: Vec3): Vec3 {
    Vec3(m.m00 * p.e0 + m.m01 * p.e1 + m.m02 * p.e2,
         m.m10 * p.e0 + m.m11 * p.e1 + m.m12 * p.e2,
         m.m20 * p.e0 + m.m21 * p.e1 + m.m22 * p.e2)
  }

  /** A.inv() * b. For an invertible matrix this is Cramer's rule, and the
      result solves the system; for a singular one the inverse of a
      fixed-size matrix is the zero matrix, so the product is the zero
      vector. */
  function Solve(m: Mat33, b: Vec3): (x: Vec3)
    ensures Det(m) != 0.0 ==> MulVec(m, x) == b
    ensures Det(m) == 0.0 ==> x == Vec3(0.0, 0.0, 0.0)
  {
    var det := Det(m);
    if det == 0.0 then Vec3(0.0, 0.0, 0.0)
    else
      var dx := Det(m.(m00 := b.e0, m10 := b.e1, m20 := b.e2));
      var dy := Det(m.(m01 := b.e0, m11 := b.e1, m21 := b.e2));
      var dz := Det(m.(m02 := b.e0, m12 := b.e1, m22 := b.e2));
      CramerRow0(m, b);
      CramerRow1(m, b);
      CramerRow2(m, b);
      MulScaled(m, dx, dy, dz, det, b);
      Vec3(dx / det, dy / det, dz / det)
  }

  /** The matrix A as built before the loop: the plane row, (fx, 0, 0) and (0, fy, 0). */
  function BaseMatrix(p: Plane, intr: Intrinsics): Mat33 {
    Mat33(p.a, p.b, p.c,
          intr.fx, 0.0, 0.0,
          0.0, intr.fy, 0.0)
  }

  /** A after A(1,2) = u0 - u and A(2,2) = v0 - v for endpoint (u, v). */
  function SystemMatrix(p: Plane, intr: Intrinsics, u: int, v: int): Mat33 {
    BaseMatrix(p, intr).(m12 := intr.u0 - u as real, m22 := intr.v0 - v as real)
  }

  /** The vector b = (-d, 0, 0). */
  function RightHandSide(p: Plane): Vec3 {
    Vec3(-p.d, 0.0, 0.0)
  }

  function ToPoint(v: Vec3): Point3 {
    Point3(v.e0, v.e1, v.e2)
  }

  /** The 3D position of endpoint (u, v): A.inv() * b. */
  function EndpointPosition(p: Plane, intr: Intrinsics, u: int, v: int): Point3 {
    ToPoint(Solve(SystemMatrix(p, intr, u, v), RightHandSide(p)))
  }

  /** The 3D segment built for one 2D segment. */
  function LineToPos(p: Plane, intr: Intrinsics, l: Segment2): LinePos {
    LinePos(EndpointPosition(p, intr, Coord(l, 0), Coord(l, 1)),
            EndpointPosition(p, intr, Coord(l, 2), Coord(l, 3)))
  }

  /** The 3D segments for a whole list of 2D segments, in order. */
  function Positions(p: Plane, intr: Intrinsics, lines: seq<Segment2>): (r: seq<LinePos>)
    ensures |r| == |lines|
  {
    seq(|lines|, i requires 0 <= i < |lines| => LineToPos(p, intr, lines[i]))
  }

  /** linesToPositions: appends one 3D segment per 2D segment, in input
      order, to `linePositions` (returned as `out`); the entries already
      present are kept. */
  method LinesToPositions(coeffs: Plane, intr: Intrinsics, lines: seq<Segment2>, linePositions: seq<LinePos>)
    returns (out: seq<LinePos>)
    ensures |out| == |linePositions| + |lines|
    ensures out[..|linePositions|] == linePositions
    ensures forall i :: 0 <= i < |lines| ==> out[|linePositions| + i] == LineToPos(coeffs, intr, lines[i])
  {
    var b := RightHandSide(coeffs);
    var A := BaseMatrix(coeffs, intr);
    out := linePositions;
    for i := 0 to |lines|
      invariant |out| == |linePositions| + i
      invariant out[..|linePositions|] == linePositions
      invariant forall t :: 0 <= t < i ==> out[|linePositions| + t] == LineToPos(coeffs, intr, lines[t])
      invariant A.(m12 := 0.0, m22 := 0.0) == BaseMatrix(coeffs, intr)
    {
      var position := new Vec3[2];
      for j := 0 to 2
        invariant A.(m12 := 0.0, m22 := 0.0) == BaseMatrix(coeffs, intr)
        invariant forall t :: 0 <= t < j ==>
          ToPoint(position[t]) == EndpointPosition(coeffs, intr, Coord(lines[i], 2 * t), Coord(lines[i], 1 + 2 * t))
      {
        var u := Coord(lines[i], 0 + j * 2);
        var v := Coord(lines[i], 1 + j * 2);
        A := A.(m12 := intr.u0 - u as real, m22 := intr.v0 - v as real);
        assert A == SystemMatrix(coeffs, intr, u, v);
        position[j] := Solve(A, b);
      }
      var pos := LinePos(ToPoint(position[0]), ToPoint(position[1]));
      out := out + [pos];
    }
  }

  // ---------------------------------------------------------------------
  // Properties of the solve

  /** Cramer's identities on plain reals, for the matrix with rows (a, b, c),
      (d, e, f), (g, h, k) and right-hand side (x, y, z). */
  lemma CramerReal0(a: real, b: real, c: real, d: real, e: real, f: real, g: real, h: real, k: real,
                     x: real, y: real, z: real)
    ensures a * Det(Mat33(x, b, c, y, e, f, z, h, k))
          + b * Det(Mat33(a, x, c, d, y, f, g, z, k))
          + c * Det(Mat33(a, b, x, d, e, y, g, h, z))
         == x * Det(Mat33(a, b, c, d, e, f, g, h, k))
  {
  }

  lemma CramerReal1(a: real, b: real, c: real, d: real, e: real, f: real, g: real, h: real, k: real,
                     x: real, y: real, z: real)
    ensures d * Det(Mat33(x, b, c, y, e, f, z, h, k))
          + e * Det(Mat33(a, x, c, d, y, f, g, z, k))
          + f * Det(Mat33(a, b, x, d, e, y, g, h, z))
         == y * Det(Mat33(a, b, c, d, e, f, g, h, k))
  {
  }

  lemma CramerReal2(a: real, b: real, c: real, d: real, e: real, f: real, g: real, h: real, k: real,
                     x: real, y: real, z: real)
    ensures g * Det(Mat33(x, b, c, y, e, f, z, h, k))
          + h * Det(Mat33(a, x, c, d, y, f, g, z, k))
          + k * Det(Mat33(a, b, x, d, e, y, g, h, z))
         == z * Det(Mat33(a, b, c, d, e, f, g, h, k))
  {
  }

  /** The three rows of Cramer's rule before division: row i of m against
      the determinants with one column replaced by b gives b_i * Det(m). */
  lemma CramerRow0(m: Mat33, b: Vec3)
    ensures m.m00 * Det(m.(m00 := b.e0, m10 := b.e1, m20 := b.e2))
          + m.m01 * Det(m.(m01 := b.e0, m11 := b.e1, m21 := b.e2))
          + m.m02 * Det(m.(m02 := b.e0, m12 := b.e1, m22 := b.e2)) == b.e0 * Det(m)
  {
    assert m == Mat33(m.m00, m.m01, m.m02, m.m10, m.m11, m.m12, m.m20, m.m21, m.m22);
    CramerReal0(m.m00, m.m01, m.m02, m.m10, m.m11, m.m12, m.m20, m.m21, m.m22, b.e0, b.e1, b.e2);
  }

  lemma CramerRow1(m: Mat33, b: Vec3)
    ensures m.m10 * Det(m.(m00 := b.e0, m10 := b.e1, m20 := b.e2))
          + m.m11 * Det(m.(m01 := b.e0, m11 := b.e1, m21 := b.e2))
          + m.m12 * Det(m.(m02 := b.e0, m12 := b.e1, m22 := b.e2)) == b.e1 * Det(m)
  {
    assert m == Mat33(m.m00, m.m01, m.m02, m.m10, m.m11, m.m12, m.m20, m.m21, m.m22);
    CramerReal1(m.m00, m.m01, m.m02, m.m10, m.m11, m.m12, m.m20, m.m21, m.m22, b.e0, b.e1, b.e2);
  }

  lemma CramerRow2(m: Mat33, b: Vec3)
    ensures m.m20 * Det(m.(m00 := b.e0, m10 := b.e1, m20 := b.e2))
          + m.m21 * Det(m.(m01 := b.e0, m11 := b.e1, m21 := b.e2))
          + m.m22 * Det(m.(m02 := b.e0, m12 := b.e1, m22 := b.e2)) == b.e2 * Det(m)
  {
    assert m == Mat33(m.m00, m.m01, m.m02, m.m10, m.m11, m.m12, m.m20, m.m21, m.m22);
    CramerReal2(m.m00, m.m01, m.m02, m.m10, m.m11, m.m12, m.m20, m.m21, m.m22, b.e0, b.e1, b.e2);
  }

  /** Dividing a linear combination by the determinant. */
  lemma DivideRow(a0: real, a1: real, a2: real, d0: real, d1: real, d2: real, r: real, det: real)
    requires det != 0.0
    requires a0 * d0 + a1 * d1 + a2 * d2 == r * det
    ensures a0 * (d0 / det) + a1 * (d1 / det) + a2 * (d2 / det) == r
  {
    assert a0 * (d0 / det) + a1 * (d1 / det) + a2 * (d2 / det) == (a0 * d0 + a1 * d1 + a2 * d2) / det;
  }

  /** Multiplying by a vector scaled by 1/det, row by row. */
  lemma MulScaled(m: Mat33, dx: real, dy: real, dz: real, det: real, b: Vec3)
    requires det != 0.0
    requires m.m00 * dx + m.m01 * dy + m.m02 * dz == b.e0 * det
    requires m.m10 * dx + m.m11 * dy + m.m12 * dz == b.e1 * det
    requires m.m20 * dx + m.m21 * dy + m.m22 * dz == b.e2 * det
    ensures MulVec(m, Vec3(dx / det, dy / det, dz / det)) == b
  {
    DivideRow(m.m00, m.m01, m.m02, dx, dy, dz, b.e0, det);
    DivideRow(m.m10, m.m11, m.m12, dx, dy, dz, b.e1, det);
    DivideRow(m.m20, m.m21, m.m22, dx, dy, dz, b.e2, det);
  }

  /** For an invertible matrix, any solution of the system is Solve's. */
  lemma SolveUnique(m: Mat33, b: Vec3, p: Vec3)
    requires Det(m) != 0.0
    requires MulVec(m, p) == b
    ensures Solve(m, b) == p
  {
    SolveQuotient(m, b);
    RecoverCoordinate0(m, p);
    RecoverCoordinate1(m, p);
    RecoverCoordinate2(m, p);
  }

  /** For an invertible matrix, Solve is the quotient of determinants. */
  lemma SolveQuotient(m: Mat33, b: Vec3)
    requires Det(m) != 0.0
    ensures Solve(m, b) == Vec3(Det(m.(m00 := b.e0, m10 := b.e1, m20 := b.e2)) / Det(m),
                                Det(m.(m01 := b.e0, m11 := b.e1, m21 := b.e2)) / Det(m),
                                Det(m.(m02 := b.e0, m12 := b.e1, m22 := b.e2)) / Det(m))
  {
  }

  /** Cramer's quotient for the right-hand side m * p gives back each
      coordinate of p (multilinearity of the determinant). */
  lemma RecoverCoordinate0(m: Mat33, p: Vec3)
    requires Det(m) != 0.0
    ensures var b := MulVec(m, p); Det(m.(m00 := b.e0, m10 := b.e1, m20 := b.e2)) / Det(m) == p.e0
  {
    ReplaceColumn0(m, p);
    DivideBack(p.e0, Det(m));
  }

  lemma RecoverCoordinate1(m: Mat33, p: Vec3)
    requires Det(m) != 0.0
    ensures var b := MulVec(m, p); Det(m.(m01 := b.e0, m11 := b.e1, m21 := b.e2)) / Det(m) == p.e1
  {
    ReplaceColumn1(m, p);
    DivideBack(p.e1, Det(m));
  }

  lemma RecoverCoordinate2(m: Mat33, p: Vec3)
    requires Det(m) != 0.0
    ensures var b := MulVec(m, p); Det(m.(m02 := b.e0, m12 := b.e1, m22 := b.e2)) / Det(m) == p.e2
  {
    ReplaceColumn2(m, p);
    DivideBack(p.e2, Det(m));
  }

  /** Replacing a column of m by m * p scales the determinant by that
      coordinate of p. */
  lemma ReplaceColumn0(m: Mat33, p: Vec3)
    ensures var b := MulVec(m, p); Det(m.(m00 := b.e0, m10 := b.e1, m20 := b.e2)) == p.e0 * Det(m)
  {
  }

  lemma ReplaceColumn1(m: Mat33, p: Vec3)
    ensures var b := MulVec(m, p); Det(m.(m01 := b.e0, m11 := b.e1, m21 := b.e2)) == p.e1 * Det(m)
  {
  }

  lemma ReplaceColumn2(m: Mat33, p: Vec3)
    ensures var b := MulVec(m, p); Det(m.(m02 := b.e0, m12 := b.e1, m22 := b.e2)) == p.e2 * Det(m)
  {
  }

  lemma DivideBack(x: real, det: real)
    requires det != 0.0
    ensures (x * det) / det == x
  {
  }

  /** The determinant of the per-endpoint system in closed form. */
  lemma SystemDeterminant(p: Plane, intr: Intrinsics, u: int, v: int)
    ensures Det(SystemMatrix(p, intr, u, v)) ==
      p.c * intr.fx * intr.fy - p.a * intr.fy * (intr.u0 - u as real) - p.b * intr.fx * (intr.v0 - v as real)
  {
  }

  /** With a non-singular system, the endpoint lies on the plane and on the
      camera ray of pixel (u, v): all three rows of A * p = b hold. */
  lemma EndpointSolvesSystem(p: Plane, intr: Intrinsics, u: int, v: int)
    requires Det(SystemMatrix(p, intr, u, v)) != 0.0
    ensures var q := EndpointPosition(p, intr, u, v);
      && p.a * q.x + p.b * q.y + p.c * q.z == -p.d
      && intr.fx * q.x + (intr.u0 - u as real) * q.z == 0.0
      && intr.fy * q.y + (intr.v0 - v as real) * q.z == 0.0
  {
    var q := Solve(SystemMatrix(p, intr, u, v), RightHandSide(p));
    assert MulVec(SystemMatrix(p, intr, u, v), q) == RightHandSide(p);
  }

  /** Round trip through the pinhole model: when the plane does not pass
      through the camera centre (d != 0) and the focal lengths are non-zero,
      the endpoint is in front of or behind the camera (z != 0) and
      projecting it back gives the pixel it came from. */
  lemma EndpointReprojects(p: Plane, intr: Intrinsics, u: int, v: int)
    requires Det(SystemMatrix(p, intr, u, v)) != 0.0
    requires p.d != 0.0 && intr.fx != 0.0 && intr.fy != 0.0
    ensures var q := EndpointPosition(p, intr, u, v);
      && q.z != 0.0
      && intr.u0 + intr.fx * q.x / q.z == u as real
      && intr.v0 + intr.fy * q.y / q.z == v as real
  {
    var m := SystemMatrix(p, intr, u, v);
    var q := EndpointPosition(p, intr, u, v);
    var det := Det(m);
    EndpointSolvesSystem(p, intr, u, v);
    assert Det(m.(m02 := -p.d, m12 := 0.0, m22 := 0.0)) == -p.d * intr.fx * intr.fy;
    assert q.z == -p.d * intr.fx * intr.fy / det;
    assert q.z != 0.0;
    assert intr.fx * q.x == (u as real - intr.u0) * q.z;
    assert intr.fy * q.y == (v as real - intr.v0) * q.z;
  }
}
