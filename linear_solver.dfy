/**
 * solveLinearSystem from index.js: Gaussian elimination with partial pivoting on an
 * n x (n + 1) augmented matrix [A | b], in place, followed by back-substitution.
 * The matrix is an array of rows; each row is a value, so the row exchange of the
 * pivot step is an exchange of two array elements, as in the original.
 * Arithmetic is exact (real), so the zero-pivot test means exact singularity.
 */
module LinearSolver {
  import opened Wrappers
  import opened LinearSystem

  function Abs(v: real): real {
    if v < 0.0 then -v else v
  }

  /**
   * The pivot search of step i: the first row among i .. n-1 whose entry in
   * column i has the largest magnitude, and that magnitude. Later rows win only on
   * a strictly larger magnitude, so ties keep the earliest row.
   */
  method FindPivot(mat: array<seq<real>>, i: nat) returns (maxRow: nat, maxEl: real)
    requires i < mat.Length
    requires forall r :: i <= r < mat.Length ==> i < |mat[r]|
    ensures i <= maxRow < mat.Length
    ensures maxEl == Abs(mat[maxRow][i])
    ensures forall r :: i <= r < mat.Length ==> Abs(mat[r][i]) <= maxEl
    ensures forall r :: i <= r < maxRow ==> Abs(mat[r][i]) < maxEl
  {
    maxRow := i;
    maxEl := Abs(mat[i][i]);
    for r := i + 1 to mat.Length
      invariant i <= maxRow < r
      invariant maxEl == Abs(mat[maxRow][i])
      invariant forall q :: i <= q < r ==> Abs(mat[q][i]) <= maxEl
      invariant forall q :: i <= q < maxRow ==> Abs(mat[q][i]) < maxEl
    {
      var absValue := Abs(mat[r][i]);
      if absValue > maxEl {
        maxEl := absValue;
        maxRow := r;
      }
    }
  }

  /**
   * The elimination of step i: every row j below the pivot row i has -mat[j][i] / mat[i][i]
   * times the pivot row added to it, with the entry in column i set to exactly zero.
   * Rows 0 .. i are left alone and the system keeps its solutions.
   */
  method EliminateBelow(mat: array<seq<real>>, i: nat)
    requires IsAugmented(mat[..], mat.Length) && i < mat.Length
    requires ReducedThrough(mat[..], i) && mat[i][i] != 0.0
    modifies mat
    ensures IsAugmented(mat[..], mat.Length)
    ensures ReducedThrough(mat[..], i + 1)
    ensures forall r :: 0 <= r <= i ==> mat[r] == old(mat[r])
    ensures forall r :: i < r < mat.Length ==>
      mat[r] == Combine(old(mat[r]), -old(mat[r][i]) / mat[i][i], mat[i])
    ensures Equivalent(mat[..], old(mat[..]))
  {
    var n := mat.Length;
    ghost var m0 := mat[..];
    for j := i + 1 to n
      invariant IsAugmented(mat[..], n)
      invariant forall r :: 0 <= r <= i || j <= r < n ==> mat[r] == m0[r]
      invariant forall r :: i < r < j ==> mat[r] == Combine(m0[r], -m0[r][i] / m0[i][i], m0[i])
      invariant forall r, c :: i < r < j && 0 <= c <= i ==> mat[r][c] == 0.0
      invariant Equivalent(mat[..], m0)
    {
      ghost var coef := -mat[j][i] / mat[i][i];
      var row := EliminateRow(mat[j], mat[i], i);
      ghost var before := mat[..];
      CombineRowsEquivalent(before, i, j, coef);
      mat[j] := row;
      assert mat[..] == before[j := Combine(before[j], coef, before[i])];
      EquivalentTransitive(mat[..], before, m0);
    }
  }

  /**
   * The inner loop of step i on one row a below the pivot row b: column i is set to
   * zero and every later column c gets coef * b[c] added, coef = -a[i] / b[i]. Columns
   * before i are left as they are, which is what adding coef * b gives there because
   * b is zero in them.
   */
  method EliminateRow(a: seq<real>, b: seq<real>, i: nat) returns (row: seq<real>)
    requires |a| == |b| && i < |b| && b[i] != 0.0
    requires forall c :: 0 <= c < i ==> b[c] == 0.0
    ensures row == Combine(a, -a[i] / b[i], b)
    ensures forall c :: 0 <= c <= i ==> row[c] == (if c < i then a[c] else 0.0)
  {
    var coef := -a[i] / b[i];
    PivotCancels(a[i], b[i]);
    row := a;
    for k := i to |a|
      invariant |row| == |a|
      invariant forall c :: 0 <= c < k ==> row[c] == a[c] + coef * b[c]
      invariant forall c :: k <= c < |a| ==> row[c] == a[c]
    {
      if i == k {
        row := row[k := 0.0];
      } else {
        row := row[k := row[k] + coef * b[k]];
      }
    }
    assert forall c :: 0 <= c < |a| ==> row[c] == Combine(a, coef, b)[c];
  }

  /** The multiplier -p / q cancels the entry p against the pivot q. */
  lemma PivotCancels(p: real, q: real)
    requires q != 0.0
    ensures p + (-p / q) * q == 0.0
  {
  }

  /**
   * Back-substitution on an upper-triangular system with nonzero diagonal: from the
   * last row up, x[l] := mat[l][n] / mat[l][l], and x[l]'s contribution is moved
   * out of column n of every row above l. Only column n changes; at the end row r
   * holds there its right-hand side minus the terms of the unknowns after r.
   */
  method BackSubstitute(mat: array<seq<real>>) returns (x: seq<real>)
    requires IsAugmented(mat[..], mat.Length) && ReducedThrough(mat[..], mat.Length)
    modifies mat
    ensures |x| == mat.Length && Satisfies(old(mat[..]), x, 1.0)
    ensures IsAugmented(mat[..], mat.Length)
    ensures BackSubstituted(old(mat[..]), mat[..], x, -1)
    ensures forall r :: 0 <= r < mat.Length ==> x[r] == mat[r][mat.Length] / mat[r][r]
  {
    var n := mat.Length;
    ghost var u := mat[..];
    var xs := new real[n];
    var l: int := n - 1;
    while l >= 0
      invariant -1 <= l < n
      invariant IsAugmented(mat[..], n)
      invariant BackSubstituted(u, mat[..], xs[..], l)
    {
      ghost var before := mat[..];
      ghost var x0 := xs[..];
      xs[l] := mat[l][n] / mat[l][l];
      ghost var x1 := xs[..];
      ghost var xl := xs[l];
      Quotient(before[l][n], before[l][l]);
      assert x1 == x0[l := xl];
      SubtractSolved(mat, l, xs[l]);
      assert xs[..] == x0[l := xl];
      BackStep(u, before, x0, l, xl);
      l := l - 1;
    }
    x := xs[..];
    BackSubstitutedSolves(u, mat[..], x);
  }

  /**
   * The inner loop of back-substitution for the unknown l, whose value is xl: from row
   * l - 1 up to row 0, the term mat[m][l] * xl is taken out of column n.
   */
  method SubtractSolved(mat: array<seq<real>>, l: nat, xl: real)
    requires IsAugmented(mat[..], mat.Length) && l < mat.Length
    modifies mat
    ensures mat[..] == SubtractAbove(old(mat[..]), l, xl, -1)
  {
    ghost var before := mat[..];
    var m: int := l - 1;
    while m >= 0
      invariant -1 <= m < l
      invariant mat[..] == SubtractAbove(before, l, xl, m)
    {
      ghost var cur := mat[..];
      ghost var updated := SubtractTerm(before[m], l, xl);
      assert mat[m] == cur[m] == before[m];
      mat[m] := SubtractTerm(mat[m], l, xl);
      assert mat[..] == cur[m := updated];
      SubtractAboveStep(before, l, xl, m);
      m := m - 1;
    }
  }

  /** Once every row is solved, x solves u. */
  lemma {:induction false} BackSubstitutedSolves(u: seq<seq<real>>, cur: seq<seq<real>>, x: seq<real>)
    requires IsAugmented(u, |u|) && IsAugmented(cur, |u|) && |x| == |u|
    requires ReducedThrough(u, |u|) && BackSubstituted(u, cur, x, -1)
    ensures Satisfies(u, x, 1.0)
    ensures forall r :: 0 <= r < |u| ==> x[r] == cur[r][|u|] / u[r][r]
  {
    var n := |u|;
    forall r | 0 <= r < n ensures RowHolds(u[r], x, 1.0) && x[r] == cur[r][n] / u[r][r] {
      SumSkipZeros(u[r], x, 0, r, n);
      assert Sum(u[r], x, r, n) == u[r][r] * x[r] + Sum(u[r], x, r + 1, n);
      DivideBack(u[r][r], x[r], cur[r][n]);
    }
  }

  lemma DivideBack(q: real, v: real, p: real)
    requires q != 0.0 && q * v == p
    ensures v == p / q
  {
  }

  /** The quotient p / q times q gives back p. */
  lemma Quotient(p: real, q: real)
    requires q != 0.0
    ensures q * (p / q) == p
  {
  }

  /**
   * The state of back-substitution over the triangular system u once rows l + 1 .. n-1
   * are solved: the coefficients are those of u, each row holds in column n its
   * right-hand side minus the contributions of the solved unknowns other than its
   * own, and the equation of each solved row holds.
   */
  ghost predicate BackSubstituted(u: seq<seq<real>>, cur: seq<seq<real>>, x: seq<real>, l: int)
    requires IsAugmented(u, |u|) && IsAugmented(cur, |u|) && |x| == |u| && -1 <= l < |u|
  {
    var n := |u|;
    (forall r, c :: 0 <= r < n && 0 <= c < n ==> cur[r][c] == u[r][c]) &&
    (forall r :: 0 <= r <= l ==> cur[r][n] == u[r][n] - Sum(u[r], x, l + 1, n)) &&
    (forall r :: l < r < n ==> cur[r][n] == u[r][n] - Sum(u[r], x, r + 1, n)) &&
    (forall r :: l < r < n ==> Sum(u[r], x, r, n) == u[r][n])
  }

  /** The row with row[l] * xl taken out of its last entry: mat[m][n] -= mat[m][l] * x[l]. */
  function SubtractTerm(row: seq<real>, l: nat, xl: real): (r: seq<real>)
    requires l < |row|
    ensures |r| == |row| && r[|row| - 1] + row[l] * xl == row[|row| - 1]
    ensures forall c :: 0 <= c < |row| - 1 ==> r[c] == row[c]
  {
    row[|row| - 1 := row[|row| - 1] - row[l] * xl]
  }

  /** cur with x_l's contribution taken out of column n of rows m + 1 .. l - 1. */
  function SubtractAbove(cur: seq<seq<real>>, l: nat, xl: real, m: int): seq<seq<real>>
    requires IsAugmented(cur, |cur|) && l < |cur|
  {
    seq(|cur|, r requires 0 <= r < |cur| => if m < r < l then SubtractTerm(cur[r], l, xl) else cur[r])
  }

  lemma {:induction false} SubtractAboveStep(cur: seq<seq<real>>, l: nat, xl: real, m: nat)
    requires IsAugmented(cur, |cur|) && m < l < |cur|
    ensures SubtractAbove(cur, l, xl, m)[m := SubtractTerm(cur[m], l, xl)] == SubtractAbove(cur, l, xl, m - 1)
  {
    var lhs := SubtractAbove(cur, l, xl, m)[m := SubtractTerm(cur[m], l, xl)];
    var rhs := SubtractAbove(cur, l, xl, m - 1);
    forall r | 0 <= r < |cur| ensures lhs[r] == rhs[r] {
    }
  }

  /** One round of back-substitution, at row l, keeps BackSubstituted. */
  lemma {:induction false} BackStep(u: seq<seq<real>>, cur: seq<seq<real>>, x0: seq<real>, l: nat, xl: real)
    requires IsAugmented(u, |u|) && ReducedThrough(u, |u|)
    requires IsAugmented(cur, |u|) && |x0| == |u| && l < |u|
    requires BackSubstituted(u, cur, x0, l)
    requires cur[l][l] * xl == cur[l][|u|]
    ensures IsAugmented(SubtractAbove(cur, l, xl, -1), |u|)
    ensures BackSubstituted(u, SubtractAbove(cur, l, xl, -1), x0[l := xl], l - 1)
  {
    var n := |u|;
    var x1 := x0[l := xl];
    var next := SubtractAbove(cur, l, xl, -1);
    BackStepCoefficients(u, cur, l, xl);
    BackStepAbove(u, cur, x0, l, xl);
    BackStepSolved(u, cur, x0, l, xl);
  }

  lemma {:induction false} BackStepCoefficients(u: seq<seq<real>>, cur: seq<seq<real>>, l: nat, xl: real)
    requires IsAugmented(u, |u|) && IsAugmented(cur, |u|) && l < |u|
    requires forall r, c :: 0 <= r < |u| && 0 <= c < |u| ==> cur[r][c] == u[r][c]
    ensures IsAugmented(SubtractAbove(cur, l, xl, -1), |u|)
    ensures forall r, c :: 0 <= r < |u| && 0 <= c < |u| ==> SubtractAbove(cur, l, xl, -1)[r][c] == u[r][c]
  {
    var next := SubtractAbove(cur, l, xl, -1);
    forall r, c | 0 <= r < |u| && 0 <= c < |u| ensures next[r][c] == u[r][c] {
      if r < l {
        assert next[r] == SubtractTerm(cur[r], l, xl);
      } else {
        assert next[r] == cur[r];
      }
    }
  }

  lemma {:induction false} BackStepAbove(u: seq<seq<real>>, cur: seq<seq<real>>, x0: seq<real>, l: nat, xl: real)
    requires IsAugmented(u, |u|) && IsAugmented(cur, |u|) && |x0| == |u| && l < |u|
    requires BackSubstituted(u, cur, x0, l)
    ensures IsAugmented(SubtractAbove(cur, l, xl, -1), |u|)
    ensures forall r :: 0 <= r < l ==>
      SubtractAbove(cur, l, xl, -1)[r][|u|] == u[r][|u|] - Sum(u[r], x0[l := xl], l, |u|)
  {
    var n := |u|;
    var x1 := x0[l := xl];
    var next := SubtractAbove(cur, l, xl, -1);
    forall r | 0 <= r < l ensures next[r][n] == u[r][n] - Sum(u[r], x1, l, n) {
      assert next[r] == SubtractTerm(cur[r], l, xl);
      SumFrame(u[r], x1, x0, l + 1, n);
      BackStepRow(u[r], cur[r], x0, x1, l, xl);
    }
  }

  lemma {:induction false} BackStepSolved(u: seq<seq<real>>, cur: seq<seq<real>>, x0: seq<real>, l: nat, xl: real)
    requires IsAugmented(u, |u|) && IsAugmented(cur, |u|) && |x0| == |u| && l < |u|
    requires BackSubstituted(u, cur, x0, l)
    requires cur[l][l] * xl == cur[l][|u|]
    ensures IsAugmented(SubtractAbove(cur, l, xl, -1), |u|)
    ensures forall r :: l <= r < |u| ==>
      SubtractAbove(cur, l, xl, -1)[r][|u|] == u[r][|u|] - Sum(u[r], x0[l := xl], r + 1, |u|)
    ensures forall r :: l <= r < |u| ==> Sum(u[r], x0[l := xl], r, |u|) == u[r][|u|]
  {
    var n := |u|;
    var x1 := x0[l := xl];
    var next := SubtractAbove(cur, l, xl, -1);
    assert next[l] == cur[l];
    SumFrame(u[l], x1, x0, l + 1, n);
    PivotRow(u[l], cur[l], x0, x1, l, xl);
    forall r | l < r < n
      ensures Sum(u[r], x1, r, n) == u[r][n] && next[r][n] == u[r][n] - Sum(u[r], x1, r + 1, n)
    {
      assert next[r] == cur[r];
      SumFrame(u[r], x1, x0, r, n);
      SumFrame(u[r], x1, x0, r + 1, n);
    }
  }

  /** The arithmetic of the pivot row l in a round of back-substitution. */
  lemma {:induction false} PivotRow(ul: seq<real>, cl: seq<real>, x0: seq<real>, x1: seq<real>, l: nat, xl: real)
    requires |ul| == |cl| == |x0| + 1 && |x1| == |x0| && l < |x0|
    requires x1[l] == xl && cl[l] == ul[l] && cl[l] * xl == cl[|x0|]
    requires Sum(ul, x1, l + 1, |x0|) == Sum(ul, x0, l + 1, |x0|)
    requires cl[|x0|] == ul[|x0|] - Sum(ul, x0, l + 1, |x0|)
    ensures Sum(ul, x1, l, |x0|) == ul[|x0|]
  {
    assert Sum(ul, x1, l, |x0|) == ul[l] * x1[l] + Sum(ul, x1, l + 1, |x0|);
  }

  /** The arithmetic of one row above the pivot row in a round of back-substitution. */
  lemma {:induction false} BackStepRow(ur: seq<real>, cr: seq<real>, x0: seq<real>, x1: seq<real>, l: nat, xl: real)
    requires |ur| == |cr| == |x0| + 1 && |x1| == |x0| && l < |x0|
    requires x1[l] == xl && cr[l] == ur[l]
    requires Sum(ur, x1, l + 1, |x0|) == Sum(ur, x0, l + 1, |x0|)
    requires cr[|x0|] == ur[|x0|] - Sum(ur, x0, l + 1, |x0|)
    ensures SubtractTerm(cr, l, xl)[|x0|] == ur[|x0|] - Sum(ur, x1, l, |x0|)
  {
    var n := |x0|;
    assert Sum(ur, x1, l, n) == ur[l] * x1[l] + Sum(ur, x1, l + 1, n);
  }

  /**
   * solveLinearSystem: returns a solution of the original system when A is
   * nonsingular and nothing (null in the original) when it is singular. The
   * argument is used as working storage and is left reduced.
   */
  method SolveLinearSystem(mat: array<seq<real>>) returns (x: Option<seq<real>>)
    requires IsAugmented(mat[..], mat.Length)
    modifies mat
    ensures x.Some? <==> Nonsingular(old(mat[..]))
    ensures x.Some? ==> |x.value| == mat.Length && Satisfies(old(mat[..]), x.value, 1.0)
    ensures IsAugmented(mat[..], mat.Length)
    ensures x.Some? ==> ReducedThrough(mat[..], mat.Length)
    ensures x.None? ==> Equivalent(mat[..], old(mat[..]))
    ensures x.None? ==> exists i :: 0 <= i < mat.Length && ReducedThrough(mat[..], i) && ColumnZeroFrom(mat[..], i)
  {
    var n := mat.Length;
    ghost var m0 := mat[..];
    for i := 0 to n
      invariant IsAugmented(mat[..], n)
      invariant ReducedThrough(mat[..], i)
      invariant Equivalent(mat[..], m0)
    {
      var maxRow, maxEl := FindPivot(mat, i);
      if maxEl == 0.0 {
        // the pivot column is zero from row i down: the matrix is singular
        SingularWitness(mat[..], i);
        EquivalentNonsingular(mat[..], m0);
        assert ColumnZeroFrom(mat[..], i);
        return None;
      }
      ghost var before := mat[..];
      mat[maxRow], mat[i] := mat[i], mat[maxRow];
      SwapRowsEquivalent(before, i, maxRow);
      assert mat[..] == before[i := before[maxRow]][maxRow := before[i]];
      EquivalentTransitive(mat[..], before, m0);
      ghost var swapped := mat[..];
      EliminateBelow(mat, i);
      EquivalentTransitive(mat[..], swapped, m0);
    }
    ghost var u := mat[..];
    TriangularNonsingular(u);
    EquivalentNonsingular(u, m0);
    var solution := BackSubstitute(mat);
    assert Satisfies(u, solution, 1.0);
    return Some(solution);
  }
}
