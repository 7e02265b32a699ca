/**
 * Plane geometry for drawTile: points, triangle corners, the canvas 2D affine
 * transform, and the 2 x 2 linear algebra behind one triangle's affine map.
 */
module Plane {

  datatype Point = Point(x: real, y: real)

  const Origin := Point(0.0, 0.0)

  /** The three corners of a triangle, in the triangulation's order. */
  datatype Corners = Corners(p0: Point, p1: Point, p2: Point)

  function Sub(p: Point, q: Point): Point {
    Point(p.x - q.x, p.y - q.y)
  }

  function Add(p: Point, q: Point): Point {
    Point(p.x + q.x, p.y + q.y)
  }

  /** Every corner moved by d. */
  function Translate(c: Corners, d: Point): Corners {
    Corners(Add(c.p0, d), Add(c.p1, d), Add(c.p2, d))
  }

  /**
   * Twice the signed area of the triangle: the cross product of the edges from
   * corner 0 to corners 1 and 2.
   */
  function Cross(c: Corners): real {
    (c.p1.x - c.p0.x) * (c.p2.y - c.p0.y) - (c.p2.x - c.p0.x) * (c.p1.y - c.p0.y)
  }

  /** The three corners lie on one line (the triangle has no area). */
  predicate Collinear(c: Corners) {
    Cross(c) == 0.0
  }

  /** Moving a triangle does not change its area. */
  lemma CrossTranslate(c: Corners, d: Point)
    ensures Cross(Translate(c, d)) == Cross(c)
  {
    var t := Translate(c, d);
    assert t.p1.x - t.p0.x == c.p1.x - c.p0.x && t.p2.y - t.p0.y == c.p2.y - c.p0.y;
    assert t.p2.x - t.p0.x == c.p2.x - c.p0.x && t.p1.y - t.p0.y == c.p1.y - c.p0.y;
  }

  /**
   * The transform set by the canvas 2D context.transform(a, b, c, d, e, f): it sends
   * (x, y) to (a x + c y + e, b x + d y + f).
   */
  datatype CanvasTransform = CanvasTransform(a: real, b: real, c: real, d: real, e: real, f: real)

  function Apply(t: CanvasTransform, p: Point): Point {
    Point(t.a * p.x + t.c * p.y + t.e, t.b * p.x + t.d * p.y + t.f)
  }

  /** t sends each corner of src to the same corner of dst. */
  predicate MapsCorners(t: CanvasTransform, src: Corners, dst: Corners) {
    Apply(t, src.p0) == dst.p0 && Apply(t, src.p1) == dst.p1 && Apply(t, src.p2) == dst.p2
  }

  // ---------------------------------------------------------------------------
  // Two equations in two unknowns: x1 a + y1 b = r1, x2 a + y2 b = r2

  function Det2(x1: real, y1: real, x2: real, y2: real): real {
    x1 * y2 - x2 * y1
  }

  /** With a nonzero determinant the only solution of the homogeneous system is zero. */
  lemma Kernel2Trivial(x1: real, y1: real, x2: real, y2: real, a: real, b: real)
    requires Det2(x1, y1, x2, y2) != 0.0
    requires x1 * a + y1 * b == 0.0 && x2 * a + y2 * b == 0.0
    ensures a == 0.0 && b == 0.0
  {
    var d := Det2(x1, y1, x2, y2);
    assert d * a == y2 * (x1 * a + y1 * b) - y1 * (x2 * a + y2 * b);
    assert d * b == x1 * (x2 * a + y2 * b) - x2 * (x1 * a + y1 * b);
    ProductZero(d, a);
    ProductZero(d, b);
  }

  lemma ProductZero(d: real, a: real)
    requires d != 0.0 && d * a == 0.0
    ensures a == 0.0
  {
  }

  /** With a zero determinant the homogeneous system has a solution other than zero. */
  function Kernel2Witness(x1: real, y1: real, x2: real, y2: real): (r: (real, real))
    requires Det2(x1, y1, x2, y2) == 0.0
    ensures r != (0.0, 0.0)
    ensures x1 * r.0 + y1 * r.1 == 0.0 && x2 * r.0 + y2 * r.1 == 0.0
  {
    if x1 != 0.0 || y1 != 0.0 then
      assert x2 * y1 + y2 * -x1 == -Det2(x1, y1, x2, y2);
      (y1, -x1)
    else if x2 != 0.0 || y2 != 0.0 then
      (y2, -x2)
    else
      (1.0, 0.0)
  }

  /** Cramer's rule: the solution of the system when the determinant is nonzero. */
  function Solve2(x1: real, y1: real, x2: real, y2: real, r1: real, r2: real): (r: (real, real))
    requires Det2(x1, y1, x2, y2) != 0.0
    ensures x1 * r.0 + y1 * r.1 == r1 && x2 * r.0 + y2 * r.1 == r2
  {
    var d := Det2(x1, y1, x2, y2);
    var a := (r1 * y2 - r2 * y1) / d;
    var b := (x1 * r2 - x2 * r1) / d;
    CramerStep(d, r1 * y2 - r2 * y1, a);
    CramerStep(d, x1 * r2 - x2 * r1, b);
    CramerRows(x1, y1, x2, y2, r1, r2, a, b);
    (a, b)
  }

  lemma CramerStep(d: real, n: real, q: real)
    requires d != 0.0 && q == n / d
    ensures d * q == n
  {
  }

  /** If d a and d b are Cramer's numerators, then (a, b) solves the system. */
  lemma CramerRows(x1: real, y1: real, x2: real, y2: real, r1: real, r2: real, a: real, b: real)
    requires Det2(x1, y1, x2, y2) != 0.0
    requires Det2(x1, y1, x2, y2) * a == r1 * y2 - r2 * y1
    requires Det2(x1, y1, x2, y2) * b == x1 * r2 - x2 * r1
    ensures x1 * a + y1 * b == r1 && x2 * a + y2 * b == r2
  {
    var d := Det2(x1, y1, x2, y2);
    assert d * (x1 * a + y1 * b) == x1 * (d * a) + y1 * (d * b);
    assert d * (x1 * a + y1 * b) == d * r1;
    assert d * (x2 * a + y2 * b) == x2 * (d * a) + y2 * (d * b);
    assert d * (x2 * a + y2 * b) == d * r2;
    Cancel(d, x1 * a + y1 * b, r1);
    Cancel(d, x2 * a + y2 * b, r2);
  }

  lemma Cancel(d: real, p: real, q: real)
    requires d != 0.0 && d * p == d * q
    ensures p == q
  {
    assert d * (p - q) == 0.0;
    ProductZero(d, p - q);
  }
}
