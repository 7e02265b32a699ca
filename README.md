# tiles-drawer: the numeric core of drawTile, in Dafny

`index.js` is a small HTTP server. It receives a reprojection triangulation and
draws a raster tile onto a canvas. It does this one triangle at a time, through
an affine map computed per triangle. This project models the numeric part of
that drawing, over exact `real` arithmetic:

- `solveLinearSystem`: Gaussian elimination with partial pivoting on an
  n x (n + 1) augmented matrix `[A | b]`, done in place, followed by
  back-substitution. It returns `null` when a pivot column is all zero.
- `pixelRound` and JavaScript's `Math.round`.
- The body of `triangles_.forEach` in `drawTile`, for each triangle:
  - the target corners become pixel coordinates, with the Y axis flipped;
  - the source corners are shifted so that corner 0 is the origin;
  - the 4 x 5 augmented system for the four affine coefficients is built and solved;
  - the triangle is skipped when the solver returns `null`;
  - otherwise the triangle is drawn through the affine transform.

The modules are:

- `LinearSystem` (linear_system.dfy) gives augmented systems their meaning:
  - `Satisfies(m, z, t)` holds when z solves `A z = t b`;
  - `Equivalent` means two systems have the same solutions;
  - `Nonsingular` means A has a trivial kernel;
  - `ReducedThrough(m, i)` means the columns before i are zero below the diagonal and the first i pivots are nonzero.
  It also proves that row swaps and row combinations keep the solutions, and what triangular and singular systems imply.
- `LinearSolver` (linear_solver.dfy) is `solveLinearSystem` as methods over an `array<seq<real>>`:
  - the array holds the rows, and each row is a value;
  - the pivot swap at lines 165-167 exchanges two array elements, as the original does;
  - the main result is that `SolveLinearSystem` returns a solution of the original system exactly when that system is nonsingular, and returns nothing otherwise.
- `PixelGrid` (pixel_grid.dfy) holds `Math.round`, as `floor(v + 1/2)`, and `pixelRound`.
- `Plane` (plane.dfy) holds points, triangle corners and the canvas affine transform `transform(a, b, c, d, e, f)`, which sends (x, y) to (a x + c y + e, b x + d y + f). It also holds the 2 x 2 algebra: the kernel facts and Cramer's rule.
- `TileDrawer` (tile_drawer.dfy) covers:
  - pixel conversion, the source shift and the augmented matrix;
  - a closed-form reference for one triangle's outcome (`PlacementOf`);
  - the method for the forEach body (`PlaceTriangle`), which calls the solver on a fresh 4-row array and is proved equal to the reference;
  - the forEach loop (`DrawTile`).
  All the canvas calls made for one triangle are recorded as one `Draw` event.
- `Wrappers` (wrappers.dfy) holds `Option`, which stands for a value-or-`null` result.

The comment at index.js:56-61 describes a 6 x 6 system in six coefficients. The
code builds a 4 x 5 system instead: the shift makes corner 0 the origin, and the
translation part is taken from pixel corner 0. The model follows the code.

## Model

| member | source | states |
|---|---|---|
| LinearSolver.FindPivot | index.js:150-158 | maxRow is in i..n-1 and maxEl = abs(mat[maxRow][i]); no row from i on has a larger magnitude in column i; every row before maxRow has a strictly smaller one, so ties keep the earliest row |
| LinearSolver.EliminateRow | index.js:171-178 | one row's inner loop gives exactly a + coef·b with coef = -a[i]/b[i]; the entry in column i becomes 0 and the columns before i are unchanged |
| LinearSolver.EliminateBelow | index.js:169-179 | after step i, columns 0..i are zero below the diagonal and the first i+1 pivots are nonzero; rows 0..i are unchanged; each later row r becomes old row r plus (-old[r][i]/pivot) times the pivot row; the system keeps exactly its solutions |
| LinearSolver.SubtractSolved | index.js:186-188 | for the unknown l with value xl, rows l-1 down to 0 have row[l]·xl taken out of column n, and nothing else changes |
| LinearSolver.SubtractTerm | index.js:187 | the row with row[l]·xl taken out of its last entry (column n); every other entry and the length are unchanged |
| LinearSolver.BackSubstitute | index.js:182-190 | on an upper-triangular system with nonzero diagonal, the returned x has length n and solves the original system; coefficient columns are unchanged; column n of row r ends as its right-hand side minus the terms of the unknowns after r; x[r] = mat[r][n] / mat[r][r] on the final matrix |
| LinearSolver.BackSubstitutedSolves | index.js:184-189 | once every row is back-substituted, x satisfies every equation of the triangular system |
| LinearSolver.SolveLinearSystem | index.js:145-191 | returns a value exactly when the input system is nonsingular; a returned x has length n and solves the input system; on success the final matrix is upper triangular with nonzero diagonal; on null, there is a step i whose first i columns are reduced (zero below the diagonal, nonzero pivots) and whose column i is zero from row i down, which is the state in which line 160 returns null, and the matrix still has the input's solutions |
| LinearSystem.SwapRowsEquivalent | index.js:164-167 | exchanging two rows keeps exactly the same solutions |
| LinearSystem.CombineRowsEquivalent | index.js:170-179 | adding a multiple of another row to a row keeps exactly the same solutions |
| LinearSystem.SingularWitness | index.js:160-162 | if the first i columns are reduced and column i is zero from row i down, A has a nonzero kernel vector, so the "matrix is singular" comment is right |
| LinearSystem.TriangularNonsingular | index.js:182 | an upper-triangular A with nonzero diagonal has only the zero kernel vector |
| LinearSystem.EquivalentNonsingular | index.js:160-161 | systems with the same solutions are singular together |
| LinearSystem.SolutionUnique | index.js:145-191 | a nonsingular system has at most one solution, so the solver's answer is the solution |
| PixelGrid.JsRound | index.js:39 | Math.round(v) is an integer in (v - 1/2, v + 1/2] |
| PixelGrid.JsRoundUnique | index.js:39 | no other integer lies in that interval |
| PixelGrid.PixelRound | index.js:38-40 | pixelRound(v)·pixelRatio is Math.round(v·pixelRatio), so it is an integer; the result lies in (v - 1/(2 pixelRatio), v + 1/(2 pixelRatio)] |
| PixelGrid.PixelRoundUnique | index.js:38-40 | any grid point in that interval is pixelRound(v) |
| PixelGrid.PixelRoundOnGrid | index.js:38-40 | a value already on the 1/pixelRatio grid is left unchanged |
| PixelGrid.PixelRoundIdempotent | index.js:38-40 | pixelRound(pixelRound(v)) = pixelRound(v) |
| PixelGrid.PixelRoundMonotone | index.js:38-40 | v <= w implies pixelRound(v) <= pixelRound(w) |
| TileDrawer.ToPixel | index.js:72-83 | applied to each of the three target corners by TileDrawer.PixelCorners; pixel u is within half a device pixel of (tx - topLeft.x)/resolution; pixel v is within half a device pixel of -(ty - topLeft.y)/resolution |
| TileDrawer.ToPixelTopLeft | index.js:72-83 | the top-left corner of the target extent maps to pixel (0, 0) |
| TileDrawer.ToPixelOrder | index.js:72-83 | with a positive resolution, u keeps the order of projection X and v reverses the order of projection Y (the Y flip) |
| TileDrawer.ShiftToOrigin | index.js:85-95 | after the shift, corner 0 is (0, 0), and moving the result back by the original corner 0 gives the original corners |
| TileDrawer.ShiftToOriginForgetsPlace | index.js:88-95 | a triangle moved by any offset shifts to the same corners |
| Plane.CrossTranslate | index.js:88-95 | the shift does not change whether the corners are collinear |
| TileDrawer.AugmentedMatrix | index.js:97-102 | the 4 x 5 matrix [[x1, y1, 0, 0, u1-u0], [x2, y2, 0, 0, u2-u0], [0, 0, x1, y1, v1-v0], [0, 0, x2, y2, v2-v0]] over the shifted source corners and the pixel corners; the result is a well-formed 4 x 5 augmented system (its equations are written out by TileDrawer.AugmentedEquations) |
| TileDrawer.TransformOfApply | index.js:116-123 | TileDrawer.TransformOf passes (c0, c2, c1, c3, u0, v0) to context.transform, which makes the map (x, y) to (c0 x + c1 y + u0, c2 x + c3 y + v0) |
| TileDrawer.AugmentedEquations | index.js:97-102 | the 4 x 5 matrix is exactly the four equations c0 x + c1 y = u - u0 and c2 x + c3 y = v - v0 for shifted corners 1 and 2 |
| TileDrawer.SolutionsMapCorners | index.js:97-123 | with corner 0 at the origin, c solves the system if and only if transform(c0, c2, c1, c3, u0, v0) sends the three shifted source corners onto the three pixel corners |
| TileDrawer.AugmentedNonsingularIff | index.js:97-107 | the system is nonsingular if and only if the shifted source corners are not collinear (x1·y2 ≠ x2·y1) |
| TileDrawer.CollinearSingular | index.js:97-107 | collinear corners give the system a nonzero kernel vector |
| TileDrawer.AreaNonsingular | index.js:97-107 | corners that enclose an area leave only the zero kernel vector |
| Plane.Solve2 | index.js:97-103 | Cramer's rule solves a 2 x 2 system with a nonzero determinant |
| TileDrawer.CramerCoefs | index.js:97-103 | the closed-form coefficients solve the 4 x 5 system |
| TileDrawer.PlacementOf | index.js:63-136 | no draw exactly when the source corners are collinear; otherwise the clip path is (u1,v1), (u0,v0), (u2,v2), the recorded shift is source corner 0, and the transform sends the shifted source corners onto the pixel corners |
| TileDrawer.PlaceTriangle | index.js:63-136 | the forEach body, which solves the system with the elimination solver, gives exactly the reference placement |
| TileDrawer.DrawTile | index.js:42-137 | the loop gives the draws of the reference placements, in triangle order, with the skipped triangles left out |
| TileDrawer.DrawsOfAppend | index.js:42-137 | the draws for two lists of triangles are the first list's draws followed by the second list's |
| TileDrawer.DrawsOfComplete | index.js:42-137 | every triangle whose source corners are not collinear is drawn |
| TileDrawer.DrawsOfSound | index.js:42-137 | every draw comes from a triangle of the list whose source corners are not collinear, and is that triangle's placement |

## Left out

- The Express app, body-parser, CORS, the `/drawCanvas` route and `app.listen` (index.js:1-23, 193-195) are left out. They are HTTP plumbing. The request fields reach the model as parameters.
- `createCanvas`, `fillRect` and the `loadImage` promises (index.js:25-35) are left out. They are asynchronous I/O into a graphics library.
- The canvas calls for one triangle (index.js:109-136) become one `Draw` event: `save`, `beginPath`, `moveTo`/`lineTo`/`clip`, `transform`, `translate`, `scale`, `drawImage` and `restore`. The event keeps the clip path, the transform and the source shift. Pixel output is not modelled.
- `translate` and `scale` (index.js:125-133) are left out beyond the recorded source shift. `sourceDataExtent` and `sourceResolution` only configure the context.
- `response.send(context.canvas.toDataURL())` (index.js:139) is left out.
- Arithmetic is exact `real`, not IEEE-754 doubles. The zero-pivot test at line 160 therefore means exact singularity. Rounding error and near-singular behaviour are not modelled. Neither are NaN, infinities and -0 in `Math.round`.
- `opt_interpolate` and `opt_renderEdges` (index.js:18, 21) are left out. They are read but never used.
- TileDrawer.ValidFrame requires `pixelRatio > 0` and `targetResolution != 0`. With other values the JavaScript divides by zero or rounds onto a reversed grid.
- LinearSolver.SolveLinearSystem takes a well-formed n x (n + 1) matrix. Ragged rows are not modelled.
- Elimination and back-substitution update one entry of a row array at a time (index.js:174, 176, 187). The model builds the updated row as a value (`EliminateRow`, `SubtractTerm`) and stores it back into the array. Two rows that alias one JavaScript array are not modelled.
- Triangles are given as three source corners and three target corners (`Corners`). The shape checks the JavaScript does not make are not modelled.
