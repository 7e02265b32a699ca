/**
 * drawTile's loop over the triangles of a reprojection triangulation. For each
 * triangle it turns the target corners into pixel coordinates, moves the source
 * corners so that corner 0 is the origin, solves the 4 x 5 augmented system for
 * the affine coefficients, and either skips the triangle (no solution) or clips
 * to the pixel triangle and draws the source image through the affine map.
 * The canvas calls are summed up by one Draw event per drawn triangle.
 */
module TileDrawer {
  import opened Wrappers
  import opened LinearSystem
  import opened LinearSolver
  import opened PixelGrid
  import opened Plane

  /** One triangle of the triangulation: its corners in the source and the target projection. */
  datatype Triangle = Triangle(source: Corners, target: Corners)

  /**
   * Where the target raster sits: the device pixel ratio, the top-left corner of the
   * target extent and the target resolution (projection units per pixel).
   */
  datatype TargetFrame = TargetFrame(pixelRatio: real, topLeft: Point, resolution: real)

  predicate ValidFrame(f: TargetFrame) {
    f.pixelRatio > 0.0 && f.resolution != 0.0
  }

  /**
   * What the canvas is told for one triangle: the clip path (moveTo u1 v1, lineTo
   * u0 v0, lineTo u2 v2), the affine transform, and the source shift that the
   * translate call before drawImage takes off the source extent.
   */
  datatype Draw = Draw(clip: seq<Point>, transform: CanvasTransform, sourceShift: Point)

  // ---------------------------------------------------------------------------
  // Pixel coordinates of the target corners

  /**
   * A target-projection point in pixels of the target raster: offset from the
   * top-left corner, divided by the resolution, with Y flipped (projection Y grows
   * up, pixel rows grow down), each snapped to the device-pixel grid.
   */
  function ToPixel(t: Point, f: TargetFrame): (p: Point)
    requires ValidFrame(f)
    ensures var u := (t.x - f.topLeft.x) / f.resolution;
      u - 0.5 / f.pixelRatio < p.x <= u + 0.5 / f.pixelRatio
    ensures var v := -(t.y - f.topLeft.y) / f.resolution;
      v - 0.5 / f.pixelRatio < p.y <= v + 0.5 / f.pixelRatio
  {
    Point(PixelRound((t.x - f.topLeft.x) / f.resolution, f.pixelRatio),
          PixelRound(-(t.y - f.topLeft.y) / f.resolution, f.pixelRatio))
  }

  function PixelCorners(target: Corners, f: TargetFrame): Corners
    requires ValidFrame(f)
  {
    Corners(ToPixel(target.p0, f), ToPixel(target.p1, f), ToPixel(target.p2, f))
  }

  /** The top-left corner of the target extent is pixel (0, 0). */
  lemma ToPixelTopLeft(f: TargetFrame)
    requires ValidFrame(f)
    ensures ToPixel(f.topLeft, f) == Origin
  {
    WholeZero(f.pixelRatio);
    PixelRoundOnGrid(0.0, f.pixelRatio);
    assert (f.topLeft.x - f.topLeft.x) / f.resolution == 0.0;
    assert -(f.topLeft.y - f.topLeft.y) / f.resolution == 0.0;
  }

  lemma WholeZero(s: real)
    ensures IsInteger(0.0 * s)
  {
  }

  /**
   * With a positive resolution, pixel X keeps the order of projection X and pixel
   * Y reverses the order of projection Y.
   */
  lemma ToPixelOrder(t: Point, w: Point, f: TargetFrame)
    requires ValidFrame(f) && f.resolution > 0.0
    ensures t.x <= w.x ==> ToPixel(t, f).x <= ToPixel(w, f).x
    ensures t.y <= w.y ==> ToPixel(w, f).y <= ToPixel(t, f).y
  {
    if t.x <= w.x {
      DivideOrder(t.x - f.topLeft.x, w.x - f.topLeft.x, f.resolution);
      PixelRoundMonotone((t.x - f.topLeft.x) / f.resolution, (w.x - f.topLeft.x) / f.resolution, f.pixelRatio);
    }
    if t.y <= w.y {
      DivideOrder(t.y - f.topLeft.y, w.y - f.topLeft.y, f.resolution);
      PixelRoundMonotone(-(w.y - f.topLeft.y) / f.resolution, -(t.y - f.topLeft.y) / f.resolution, f.pixelRatio);
    }
  }

  lemma DivideOrder(a: real, b: real, r: real)
    requires a <= b && r > 0.0
    ensures a / r <= b / r && -b / r <= -a / r
  {
  }

  // ---------------------------------------------------------------------------
  // The source shift and the augmented system

  /**
   * The source corners with corner 0 moved to the origin: the shift by
   * sourceNumericalShift = corner 0. Moving the result back by corner 0 gives the
   * corners again.
   */
  function ShiftToOrigin(c: Corners): (s: Corners)
    ensures s.p0 == Origin
    ensures Translate(s, c.p0) == c
  {
    Corners(Origin, Sub(c.p1, c.p0), Sub(c.p2, c.p0))
  }

  /** Shifting forgets where the triangle was: a moved triangle shifts to the same corners. */
  lemma ShiftToOriginForgetsPlace(c: Corners, d: Point)
    ensures ShiftToOrigin(Translate(c, d)) == ShiftToOrigin(c)
  {
    var t := Translate(c, d);
    assert Sub(t.p1, t.p0) == Sub(c.p1, c.p0);
    assert Sub(t.p2, t.p0) == Sub(c.p2, c.p0);
  }

  /**
   * The system for the affine coefficients c0 .. c3 once corner 0 is the origin:
   * c0 x + c1 y = u - u0 and c2 x + c3 y = v - v0 for corners 1 and 2.
   */
  function AugmentedMatrix(s: Corners, px: Corners): (m: seq<seq<real>>)
    ensures IsAugmented(m, 4)
  {
    [ [s.p1.x, s.p1.y, 0.0, 0.0, px.p1.x - px.p0.x],
      [s.p2.x, s.p2.y, 0.0, 0.0, px.p2.x - px.p0.x],
      [0.0, 0.0, s.p1.x, s.p1.y, px.p1.y - px.p0.y],
      [0.0, 0.0, s.p2.x, s.p2.y, px.p2.y - px.p0.y] ]
  }

  /** The transform given to context.transform for coefficients c and pixel corner 0. */
  function TransformOf(c: seq<real>, anchor: Point): CanvasTransform
    requires |c| == 4
  {
    CanvasTransform(c[0], c[2], c[1], c[3], anchor.x, anchor.y)
  }

  /**
   * Because c1 and c2 trade places in the argument list, the transform maps (x, y)
   * to (c0 x + c1 y + anchor.x, c2 x + c3 y + anchor.y).
   */
  lemma TransformOfApply(c: seq<real>, anchor: Point, p: Point)
    requires |c| == 4
    ensures Apply(TransformOf(c, anchor), p) == Point(c[0] * p.x + c[1] * p.y + anchor.x, c[2] * p.x + c[3] * p.y + anchor.y)
  {
  }

  /** One row of a 4-unknown system, written out. */
  lemma RowEquation(row: seq<real>, z: seq<real>, t: real)
    requires |row| == 5 && |z| == 4
    ensures RowHolds(row, z, t) <==> row[0] * z[0] + row[1] * z[1] + row[2] * z[2] + row[3] * z[3] == t * row[4]
  {
    assert Sum(row, z, 3, 4) == row[3] * z[3];
    assert Sum(row, z, 2, 4) == row[2] * z[2] + Sum(row, z, 3, 4);
    assert Sum(row, z, 1, 4) == row[1] * z[1] + Sum(row, z, 2, 4);
  }

  /** The four equations of AugmentedMatrix(s, px) against z and t, written out. */
  lemma {:induction false} AugmentedEquations(s: Corners, px: Corners, z: seq<real>, t: real)
    requires |z| == 4
    ensures Satisfies(AugmentedMatrix(s, px), z, t) <==>
      s.p1.x * z[0] + s.p1.y * z[1] == t * (px.p1.x - px.p0.x) &&
      s.p2.x * z[0] + s.p2.y * z[1] == t * (px.p2.x - px.p0.x) &&
      s.p1.x * z[2] + s.p1.y * z[3] == t * (px.p1.y - px.p0.y) &&
      s.p2.x * z[2] + s.p2.y * z[3] == t * (px.p2.y - px.p0.y)
  {
    var m := AugmentedMatrix(s, px);
    RowEquation(m[0], z, t);
    RowEquation(m[1], z, t);
    RowEquation(m[2], z, t);
    RowEquation(m[3], z, t);
    assert Satisfies(m, z, t) <==> RowHolds(m[0], z, t) && RowHolds(m[1], z, t) && RowHolds(m[2], z, t) && RowHolds(m[3], z, t);
  }

  /**
   * With corner 0 at the origin, c solves the system exactly when the transform built
   * from c and pixel corner 0 sends the three source corners onto the three pixel corners.
   */
  lemma {:induction false} SolutionsMapCorners(s: Corners, px: Corners, c: seq<real>)
    requires s.p0 == Origin && |c| == 4
    ensures Satisfies(AugmentedMatrix(s, px), c, 1.0) <==> MapsCorners(TransformOf(c, px.p0), s, px)
  {
    AugmentedEquations(s, px, c, 1.0);
    TransformOfCorner(c, px.p0, s.p0, px.p0);
    TransformOfCorner(c, px.p0, s.p1, px.p1);
    TransformOfCorner(c, px.p0, s.p2, px.p2);
  }

  /** The transform for c and anchor sends p to q exactly when these two equations hold. */
  lemma TransformOfCorner(c: seq<real>, anchor: Point, p: Point, q: Point)
    requires |c| == 4
    ensures Apply(TransformOf(c, anchor), p) == q <==>
      p.x * c[0] + p.y * c[1] == 1.0 * (q.x - anchor.x) && p.x * c[2] + p.y * c[3] == 1.0 * (q.y - anchor.y)
  {
  }

  /** With corner 0 at the origin, the system is nonsingular exactly when the triangle has an area. */
  lemma AugmentedNonsingularIff(s: Corners, px: Corners)
    requires s.p0 == Origin
    ensures Nonsingular(AugmentedMatrix(s, px)) <==> !Collinear(s)
  {
    assert Cross(s) == Det2(s.p1.x, s.p1.y, s.p2.x, s.p2.y);
    if Collinear(s) {
      CollinearSingular(s, px);
    } else {
      AreaNonsingular(s, px);
    }
  }

  /** A zero-area triangle gives the system a nonzero kernel vector. */
  lemma CollinearSingular(s: Corners, px: Corners)
    requires Det2(s.p1.x, s.p1.y, s.p2.x, s.p2.y) == 0.0
    ensures !Nonsingular(AugmentedMatrix(s, px))
  {
    var w := Kernel2Witness(s.p1.x, s.p1.y, s.p2.x, s.p2.y);
    var z := [w.0, w.1, 0.0, 0.0];
    AugmentedEquations(s, px, z, 0.0);
    assert Satisfies(AugmentedMatrix(s, px), z, 0.0);
    assert !IsZero(z) by {
      if w.0 == 0.0 { assert z[1] != 0.0; } else { assert z[0] != 0.0; }
    }
  }

  /** A triangle with an area leaves the system only the zero kernel vector. */
  lemma AreaNonsingular(s: Corners, px: Corners)
    requires Det2(s.p1.x, s.p1.y, s.p2.x, s.p2.y) != 0.0
    ensures Nonsingular(AugmentedMatrix(s, px))
  {
    var m := AugmentedMatrix(s, px);
    forall z: seq<real> | |z| == 4 && Satisfies(m, z, 0.0) ensures IsZero(z) {
      AugmentedEquations(s, px, z, 0.0);
      Kernel2Trivial(s.p1.x, s.p1.y, s.p2.x, s.p2.y, z[0], z[1]);
      Kernel2Trivial(s.p1.x, s.p1.y, s.p2.x, s.p2.y, z[2], z[3]);
    }
  }

  /**
   * The affine coefficients in closed form (Cramer's rule on the two 2 x 2 halves of
   * the system), for a triangle with an area and corner 0 at the origin.
   */
  function CramerCoefs(s: Corners, px: Corners): (c: seq<real>)
    requires s.p0 == Origin && !Collinear(s)
    ensures |c| == 4 && Satisfies(AugmentedMatrix(s, px), c, 1.0)
  {
    assert Cross(s) == Det2(s.p1.x, s.p1.y, s.p2.x, s.p2.y);
    var a := Solve2(s.p1.x, s.p1.y, s.p2.x, s.p2.y, px.p1.x - px.p0.x, px.p2.x - px.p0.x);
    var b := Solve2(s.p1.x, s.p1.y, s.p2.x, s.p2.y, px.p1.y - px.p0.y, px.p2.y - px.p0.y);
    var c := [a.0, a.1, b.0, b.1];
    assert s.p1.x * c[0] + s.p1.y * c[1] == 1.0 * (px.p1.x - px.p0.x);
    assert s.p2.x * c[0] + s.p2.y * c[1] == 1.0 * (px.p2.x - px.p0.x);
    assert s.p1.x * c[2] + s.p1.y * c[3] == 1.0 * (px.p1.y - px.p0.y);
    assert s.p2.x * c[2] + s.p2.y * c[3] == 1.0 * (px.p2.y - px.p0.y);
    AugmentedEquations(s, px, c, 1.0);
    c
  }

  // ---------------------------------------------------------------------------
  // One triangle

  /**
   * The reference outcome for one triangle: nothing when its source corners are
   * collinear, otherwise the clip path through the pixel corners and the
   * closed-form transform.
   */
  function PlacementOf(tri: Triangle, f: TargetFrame): (r: Option<Draw>)
    requires ValidFrame(f)
    ensures r.None? <==> Collinear(tri.source)
    ensures r.Some? ==>
      var px := PixelCorners(tri.target, f);
      r.value.clip == [px.p1, px.p0, px.p2] &&
      r.value.sourceShift == tri.source.p0 &&
      MapsCorners(r.value.transform, ShiftToOrigin(tri.source), px)
  {
    var s := ShiftToOrigin(tri.source);
    var px := PixelCorners(tri.target, f);
    CrossTranslate(s, tri.source.p0);
    if Collinear(s) then
      None
    else
      var c := CramerCoefs(s, px);
      SolutionsMapCorners(s, px, c);
      Some(Draw([px.p1, px.p0, px.p2], TransformOf(c, px.p0), tri.source.p0))
  }

  /**
   * The forEach body for one triangle: pixel corners, source shift, the augmented
   * system solved in a fresh 4-row array, and a skip when the solver finds no
   * solution. The outcome is the reference placement.
   */
  method PlaceTriangle(tri: Triangle, f: TargetFrame) returns (draw: Option<Draw>)
    requires ValidFrame(f)
    ensures draw == PlacementOf(tri, f)
  {
    var px := PixelCorners(tri.target, f);
    var s := ShiftToOrigin(tri.source);
    var m := AugmentedMatrix(s, px);
    var mat := new seq<real>[4];
    mat[0], mat[1], mat[2], mat[3] := m[0], m[1], m[2], m[3];
    assert mat[..] == m;
    AugmentedNonsingularIff(s, px);
    CrossTranslate(s, tri.source.p0);
    var affineCoefs := SolveLinearSystem(mat);
    if affineCoefs.None? {
      return None;
    }
    var c := CramerCoefs(s, px);
    SolutionUnique(m, affineCoefs.value, c);
    draw := Some(Draw([px.p1, px.p0, px.p2], TransformOf(affineCoefs.value, px.p0), tri.source.p0));
  }

  // ---------------------------------------------------------------------------
  // All triangles

  /** The draws for a list of triangles, in order, with the collinear ones skipped. */
  function DrawsOf(ts: seq<Triangle>, f: TargetFrame): seq<Draw>
    requires ValidFrame(f)
  {
    if |ts| == 0 then []
    else
      var rest := DrawsOf(ts[..|ts| - 1], f);
      match PlacementOf(ts[|ts| - 1], f)
      case None => rest
      case Some(d) => rest + [d]
  }

  /** drawTile's forEach over the triangles. */
  method DrawTile(triangles: seq<Triangle>, f: TargetFrame) returns (draws: seq<Draw>)
    requires ValidFrame(f)
    ensures draws == DrawsOf(triangles, f)
  {
    draws := [];
    for i := 0 to |triangles|
      invariant draws == DrawsOf(triangles[..i], f)
    {
      assert triangles[..i + 1][..i] == triangles[..i];
      var draw := PlaceTriangle(triangles[i], f);
      if draw.Some? {
        draws := draws + [draw.value];
      }
    }
    assert triangles[..|triangles|] == triangles;
  }

  /** Drawing two lists one after the other gives the draws of each, in order. */
  lemma {:induction false} DrawsOfAppend(a: seq<Triangle>, b: seq<Triangle>, f: TargetFrame)
    requires ValidFrame(f)
    ensures DrawsOf(a + b, f) == DrawsOf(a, f) + DrawsOf(b, f)
    decreases |b|
  {
    if |b| == 0 {
      assert a + b == a;
    } else {
      var b' := b[..|b| - 1];
      assert (a + b)[..|a + b| - 1] == a + b';
      assert (a + b)[|a + b| - 1] == b[|b| - 1];
      DrawsOfAppend(a, b', f);
    }
  }

  /** Every triangle with an area is drawn. */
  lemma {:induction false} DrawsOfComplete(ts: seq<Triangle>, f: TargetFrame, k: nat)
    requires ValidFrame(f) && k < |ts| && !Collinear(ts[k].source)
    ensures PlacementOf(ts[k], f).value in DrawsOf(ts, f)
    decreases |ts|
  {
    if k < |ts| - 1 {
      var init := ts[..|ts| - 1];
      assert init[k] == ts[k];
      DrawsOfComplete(init, f, k);
    }
  }

  /** Every draw comes from a triangle of the list that has an area. */
  lemma {:induction false} DrawsOfSound(ts: seq<Triangle>, f: TargetFrame, d: Draw)
    requires ValidFrame(f) && d in DrawsOf(ts, f)
    ensures exists k :: 0 <= k < |ts| && !Collinear(ts[k].source) && PlacementOf(ts[k], f) == Some(d)
    decreases |ts|
  {
    var init := ts[..|ts| - 1];
    if d in DrawsOf(init, f) {
      DrawsOfSound(init, f, d);
      var k :| 0 <= k < |init| && !Collinear(init[k].source) && PlacementOf(init[k], f) == Some(d);
      assert ts[k] == init[k];
    } else {
      assert PlacementOf(ts[|ts| - 1], f) == Some(d);
    }
  }
}
