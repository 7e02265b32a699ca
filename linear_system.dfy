/**
 * Augmented linear systems [A | b] over exact reals, as the elimination solver sees
 * them: an n-row sequence of rows of length n + 1, where the last column is b.
 * This module gives the meaning of such a system (which vectors solve it), the
 * relation between systems that elementary row operations keep (same solutions),
 * and the facts about triangular systems that the solver's result rests on.
 */
module LinearSystem {

  /** a[lo]*x[lo] + ... + a[hi-1]*x[hi-1]. */
  function Sum(a: seq<real>, x: seq<real>, lo: nat, hi: nat): real
    requires lo <= hi <= |a| && hi <= |x|
    decreases hi - lo
  {
    if lo == hi then 0.0 else a[lo] * x[lo] + Sum(a, x, lo + 1, hi)
  }

  /** m is an n x (n + 1) augmented matrix. */
  predicate IsAugmented(m: seq<seq<real>>, n: nat) {
    |m| == n && forall r :: 0 <= r < n ==> |m[r]| == n + 1
  }

  /**
   * z satisfies A z = t b for the augmented matrix m = [A | b]. With t = 1 this is
   * "z solves the system", with t = 0 it is "z is in the kernel of A".
   */
  predicate Satisfies(m: seq<seq<real>>, z: seq<real>, t: real)
    requires IsAugmented(m, |z|)
  {
    forall r :: 0 <= r < |m| ==> RowHolds(m[r], z, t)
  }

  /** One equation: the row's coefficients dotted with z equal t times its last entry. */
  predicate RowHolds(row: seq<real>, z: seq<real>, t: real)
    requires |row| == |z| + 1
  {
    Sum(row, z, 0, |z|) == t * row[|z|]
  }

  /** Two systems of the same size have exactly the same solutions, for every right-hand-side scale t. */
  ghost predicate Equivalent(m1: seq<seq<real>>, m2: seq<seq<real>>)
    requires IsAugmented(m1, |m1|) && IsAugmented(m2, |m1|)
  {
    forall z: seq<real>, t: real :: |z| == |m1| ==> (Satisfies(m1, z, t) <==> Satisfies(m2, z, t))
  }

  predicate IsZero(z: seq<real>) {
    forall k :: 0 <= k < |z| ==> z[k] == 0.0
  }

  /** The coefficient part A of m = [A | b] has only the trivial kernel. */
  ghost predicate Nonsingular(m: seq<seq<real>>)
    requires IsAugmented(m, |m|)
  {
    forall z: seq<real> :: |z| == |m| && Satisfies(m, z, 0.0) ==> IsZero(z)
  }

  /**
   * Columns 0 .. i-1 have only zeros below the diagonal and the first i diagonal
   * entries (the pivots chosen so far) are nonzero. ReducedThrough(m, |m|) says
   * that A is upper triangular with a nonzero diagonal.
   */
  predicate ReducedThrough(m: seq<seq<real>>, i: nat)
    requires IsAugmented(m, |m|) && i <= |m|
  {
    (forall r, c :: 0 <= c < i && c < r < |m| ==> m[r][c] == 0.0) &&
    (forall r :: 0 <= r < i ==> m[r][r] != 0.0)
  }

  /** Column i of m is zero from row i down: no pivot is left for step i. */
  predicate ColumnZeroFrom(m: seq<seq<real>>, i: nat)
    requires IsAugmented(m, |m|) && i < |m|
  {
    forall r :: i <= r < |m| ==> m[r][i] == 0.0
  }

  /** The row a + k * b. */
  function Combine(a: seq<real>, k: real, b: seq<real>): seq<real>
    requires |a| == |b|
  {
    seq(|a|, c requires 0 <= c < |a| => a[c] + k * b[c])
  }

  function VectorSub(x: seq<real>, y: seq<real>): seq<real>
    requires |x| == |y|
  {
    seq(|x|, c requires 0 <= c < |x| => x[c] - y[c])
  }

  // ---------------------------------------------------------------------------
  // Facts about Sum

  /** Sum only looks at x[lo .. hi-1]. */
  lemma {:induction false} SumFrame(a: seq<real>, x: seq<real>, y: seq<real>, lo: nat, hi: nat)
    requires lo <= hi <= |a| && hi <= |x| && hi <= |y|
    requires forall c :: lo <= c < hi ==> x[c] == y[c]
    ensures Sum(a, x, lo, hi) == Sum(a, y, lo, hi)
    decreases hi - lo
  {
    if lo < hi {
      SumFrame(a, x, y, lo + 1, hi);
    }
  }

  /** Leading zero coefficients contribute nothing. */
  lemma {:induction false} SumSkipZeros(a: seq<real>, x: seq<real>, lo: nat, mid: nat, hi: nat)
    requires lo <= mid <= hi <= |a| && hi <= |x|
    requires forall c :: lo <= c < mid ==> a[c] == 0.0
    ensures Sum(a, x, lo, hi) == Sum(a, x, mid, hi)
    decreases mid - lo
  {
    if lo < mid {
      SumSkipZeros(a, x, lo + 1, mid, hi);
    }
  }

  /** A vector that is zero on lo .. hi-1 gives a zero sum there. */
  lemma {:induction false} SumOfZeroVector(a: seq<real>, x: seq<real>, lo: nat, hi: nat)
    requires lo <= hi <= |a| && hi <= |x|
    requires forall c :: lo <= c < hi ==> x[c] == 0.0
    ensures Sum(a, x, lo, hi) == 0.0
    decreases hi - lo
  {
    if lo < hi {
      SumOfZeroVector(a, x, lo + 1, hi);
    }
  }

  /** Sum is linear in the row. */
  lemma {:induction false} SumCombine(a: seq<real>, k: real, b: seq<real>, x: seq<real>, lo: nat, hi: nat)
    requires |a| == |b| && lo <= hi <= |a| && hi <= |x|
    ensures Sum(Combine(a, k, b), x, lo, hi) == Sum(a, x, lo, hi) + k * Sum(b, x, lo, hi)
    decreases hi - lo
  {
    if lo < hi {
      SumCombine(a, k, b, x, lo + 1, hi);
    }
  }

  /** Sum is linear in the vector. */
  lemma {:induction false} SumDifference(a: seq<real>, x: seq<real>, y: seq<real>, lo: nat, hi: nat)
    requires |x| == |y| && lo <= hi <= |a| && hi <= |x|
    ensures Sum(a, VectorSub(x, y), lo, hi) == Sum(a, x, lo, hi) - Sum(a, y, lo, hi)
    decreases hi - lo
  {
    if lo < hi {
      SumDifference(a, x, y, lo + 1, hi);
    }
  }

  // ---------------------------------------------------------------------------
  // Row operations keep the solution set

  lemma EquivalentTransitive(m1: seq<seq<real>>, m2: seq<seq<real>>, m3: seq<seq<real>>)
    requires IsAugmented(m1, |m1|) && IsAugmented(m2, |m1|) && IsAugmented(m3, |m1|)
    requires Equivalent(m1, m2) && Equivalent(m2, m3)
    ensures Equivalent(m1, m3)
  {
  }

  /** Adding a multiple of row i to another row j changes no solution. */
  lemma CombineRowsEquivalent(m: seq<seq<real>>, i: nat, j: nat, k: real)
    requires IsAugmented(m, |m|) && i < |m| && j < |m| && i != j
    ensures IsAugmented(m[j := Combine(m[j], k, m[i])], |m|)
    ensures Equivalent(m[j := Combine(m[j], k, m[i])], m)
  {
    forall z: seq<real>, t: real | |z| == |m|
      ensures Satisfies(m[j := Combine(m[j], k, m[i])], z, t) <==> Satisfies(m, z, t)
    {
      CombineRowsSolutions(m, i, j, k, z, t);
    }
  }

  lemma CombineRowsSolutions(m: seq<seq<real>>, i: nat, j: nat, k: real, z: seq<real>, t: real)
    requires IsAugmented(m, |m|) && i < |m| && j < |m| && i != j && |z| == |m|
    ensures IsAugmented(m[j := Combine(m[j], k, m[i])], |m|)
    ensures Satisfies(m[j := Combine(m[j], k, m[i])], z, t) <==> Satisfies(m, z, t)
  {
    var n := |m|;
    var m' := m[j := Combine(m[j], k, m[i])];
    assert m'[i] == m[i];
    assert RowHolds(m[i], z, t) ==> (RowHolds(m'[j], z, t) <==> RowHolds(m[j], z, t)) by {
      SumCombine(m[j], k, m[i], z, 0, n);
      assert m'[j][n] == m[j][n] + k * m[i][n];
      ResidualOfCombination(Sum(m[j], z, 0, n), Sum(m[i], z, 0, n), m[j][n], m[i][n], k, t);
    }
    assert forall r :: 0 <= r < n && r != j ==> m'[r] == m[r];
  }

  /** The residual s - t*b of row a + k*b' is that of a plus k times that of b'. */
  lemma ResidualOfCombination(sa: real, sb: real, ba: real, bb: real, k: real, t: real)
    ensures (sa + k * sb) - t * (ba + k * bb) == (sa - t * ba) + k * (sb - t * bb)
  {
  }

  /** Exchanging two rows changes no solution. */
  lemma SwapRowsEquivalent(m: seq<seq<real>>, i: nat, j: nat)
    requires IsAugmented(m, |m|) && i < |m| && j < |m|
    ensures IsAugmented(m[i := m[j]][j := m[i]], |m|)
    ensures Equivalent(m[i := m[j]][j := m[i]], m)
  {
    var n := |m|;
    var m' := m[i := m[j]][j := m[i]];
    forall z: seq<real>, t: real | |z| == n
      ensures Satisfies(m', z, t) <==> Satisfies(m, z, t)
    {
      if Satisfies(m, z, t) {
        forall r | 0 <= r < n ensures Sum(m'[r], z, 0, n) == t * m'[r][n] {
          var src := if r == j then i else if r == i then j else r;
          assert m'[r] == m[src];
        }
      }
      if Satisfies(m', z, t) {
        forall r | 0 <= r < n ensures Sum(m[r], z, 0, n) == t * m[r][n] {
          var dst := if r == j then i else if r == i then j else r;
          assert m[r] == m'[dst];
        }
      }
    }
  }

  /** Equivalent systems agree on being nonsingular. */
  lemma EquivalentNonsingular(m1: seq<seq<real>>, m2: seq<seq<real>>)
    requires IsAugmented(m1, |m1|) && IsAugmented(m2, |m1|) && Equivalent(m1, m2)
    ensures Nonsingular(m1) <==> Nonsingular(m2)
  {
    forall z: seq<real> | |z| == |m1|
      ensures Satisfies(m1, z, 0.0) <==> Satisfies(m2, z, 0.0)
    {
    }
  }

  // ---------------------------------------------------------------------------
  // Triangular systems

  /**
   * In an upper-triangular system with nonzero diagonal, a kernel vector that is
   * zero from row r + 1 on is zero at r as well; so, from the bottom up, it is zero.
   */
  lemma {:induction false} TriangularKernelSuffix(u: seq<seq<real>>, z: seq<real>, r: nat)
    requires IsAugmented(u, |u|) && ReducedThrough(u, |u|)
    requires |z| == |u| && Satisfies(u, z, 0.0) && r <= |u|
    ensures forall c :: r <= c < |u| ==> z[c] == 0.0
    decreases |u| - r
  {
    var n := |u|;
    if r < n {
      TriangularKernelSuffix(u, z, r + 1);
      assert Sum(u[r], z, 0, n) == 0.0 * u[r][n];
      SumSkipZeros(u[r], z, 0, r, n);
      SumOfZeroVector(u[r], z, r + 1, n);
      assert u[r][r] * z[r] == 0.0;
    }
  }

  /** An upper-triangular system with a nonzero diagonal is nonsingular. */
  lemma TriangularNonsingular(u: seq<seq<real>>)
    requires IsAugmented(u, |u|) && ReducedThrough(u, |u|)
    ensures Nonsingular(u)
  {
    forall z: seq<real> | |z| == |u| && Satisfies(u, z, 0.0)
      ensures IsZero(z)
    {
      TriangularKernelSuffix(u, z, 0);
    }
  }

  /**
   * If the first i columns are reduced and column i is zero from row i down, the
   * coefficient matrix has a kernel vector with a 1 in position i: the system is
   * singular. The vector is built by back-substitution on the leading i rows.
   */
  lemma SingularWitness(m: seq<seq<real>>, i: nat)
    requires IsAugmented(m, |m|) && i < |m| && ReducedThrough(m, i)
    requires ColumnZeroFrom(m, i)
    ensures !Nonsingular(m)
  {
    var n := |m|;
    var z := seq(n, k requires 0 <= k < n => if k == i then 1.0 else 0.0);
    var l := i;
    while l > 0
      invariant 0 <= l <= i
      invariant |z| == n && z[i] == 1.0
      invariant forall k :: i < k < n ==> z[k] == 0.0
      invariant forall r :: l <= r < i ==> Sum(m[r], z, r, n) == 0.0
    {
      l := l - 1;
      var s := Sum(m[l], z, l + 1, n);
      var z' := z[l := -s / m[l][l]];
      forall r | l < r < i ensures Sum(m[r], z', r, n) == 0.0 {
        SumFrame(m[r], z, z', r, n);
      }
      SumFrame(m[l], z, z', l + 1, n);
      z := z';
    }
    forall r | 0 <= r < n ensures Sum(m[r], z, 0, n) == 0.0 * m[r][n] {
      if r < i {
        SumSkipZeros(m[r], z, 0, r, n);
      } else {
        SumSkipZeros(m[r], z, 0, i + 1, n);
        SumOfZeroVector(m[r], z, i + 1, n);
      }
    }
    assert Satisfies(m, z, 0.0);
    assert !IsZero(z);
  }

  /** A nonsingular system has at most one solution. */
  lemma SolutionUnique(m: seq<seq<real>>, x: seq<real>, y: seq<real>)
    requires IsAugmented(m, |m|) && Nonsingular(m)
    requires |x| == |m| && |y| == |m| && Satisfies(m, x, 1.0) && Satisfies(m, y, 1.0)
    ensures x == y
  {
    var n := |m|;
    var d := VectorSub(x, y);
    forall r | 0 <= r < n ensures Sum(m[r], d, 0, n) == 0.0 * m[r][n] {
      SumDifference(m[r], x, y, 0, n);
    }
    assert Satisfies(m, d, 0.0);
    assert IsZero(d);
    forall k | 0 <= k < n ensures x[k] == y[k] {
      assert d[k] == 0.0;
    }
  }
}
