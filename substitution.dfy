/**
 * Forward and back substitution against a finished combined LU storage M:
 * what the two loops of LUPSolve compute, and why their result solves the
 * original system.
 */
module Substitution {
  import opened LinearAlgebra
  import opened Permutations
  import opened Factorization

  /** Row t of the unit lower system: y[t] plus the stored multipliers of
      row t times the earlier entries of y gives c[t]. */
  ghost predicate ForwardRow(M: Matrix, y: Vector, c: Vector, t: nat, n: nat)
    requires IsSquare(M, n) && |y| >= n && |c| == n && t < n
  {
    y[t] + Dot(M[t], y, 0, t) == c[t]
  }

  /** Row t of the upper system: the entries of row t from the diagonal
      on times the entries of x from t on give y[t]. */
  ghost predicate BackRow(M: Matrix, x: Vector, y: Vector, t: nat, n: nat)
    requires IsSquare(M, n) && |x| >= n && |y| == n && t < n
  {
    Dot(M[t], x, t, n) == y[t]
  }

  /** y solves L * y == c for the unit lower factor stored in M. */
  ghost predicate ForwardSolved(M: Matrix, y: Vector, c: Vector, n: nat)
    requires IsSquare(M, n)
  {
    |y| == n && |c| == n && forall t :: 0 <= t < n ==> ForwardRow(M, y, c, t, n)
  }

  /** x solves U * x == y for the upper factor stored in M. */
  ghost predicate BackSolved(M: Matrix, x: Vector, y: Vector, n: nat)
    requires IsSquare(M, n)
  {
    |x| == n && |y| == n && forall t :: 0 <= t < n ==> BackRow(M, x, y, t, n)
  }

  /** The rows of either system see only the first n entries of the vector. */
  lemma RowsPrefix(M: Matrix, x: Vector, y: Vector, t: nat, n: nat)
    requires IsSquare(M, n) && |x| >= n && |y| == n && t < n
    ensures ForwardRow(M, x[..n], y, t, n) == ForwardRow(M, x, y, t, n)
    ensures BackRow(M, x[..n], y, t, n) == BackRow(M, x, y, t, n)
  {
    DotFrame(M[t], x[..n], M[t], x, 0, t);
    DotFrame(M[t], x[..n], M[t], x, t, n);
  }

  /** Two vectors that agree after position lo and have the same partial
      dot product from lo with a row whose entry lo is nonzero agree at lo. */
  lemma LeadingEntry(u: Vector, v: Vector, v': Vector, lo: nat, hi: nat)
    requires lo < hi <= |u| && hi <= |v| && hi <= |v'| && u[lo] != 0.0
    requires forall k :: lo < k < hi ==> v[k] == v'[k]
    requires Dot(u, v, lo, hi) == Dot(u, v', lo, hi)
    ensures v[lo] == v'[lo]
  {
    DotLowDifference(u, v, v', lo, hi);
    CancelLeading(u[lo], v[lo], v'[lo], Dot(u, v, lo, hi), Dot(u, v', lo, hi));
  }

  /** When v and v' agree after position lo, the partial dot products from lo
      differ only by the leading term. */
  lemma {:induction false} DotLowDifference(u: Vector, v: Vector, v': Vector, lo: nat, hi: nat)
    requires lo < hi <= |u| && hi <= |v| && hi <= |v'|
    requires forall k :: lo < k < hi ==> v[k] == v'[k]
    ensures Dot(u, v, lo, hi) - Dot(u, v', lo, hi) == u[lo] * v[lo] - u[lo] * v'[lo]
  {
    if lo + 1 < hi {
      DotLowDifference(u, v, v', lo, hi - 1);
      assert v[hi - 1] == v'[hi - 1];
    }
  }

  /** d * p - d * p' == s - s' with s == s' and d nonzero forces p == p'. */
  lemma CancelLeading(d: real, p: real, p': real, s: real, s': real)
    requires d != 0.0 && s - s' == d * p - d * p' && s == s'
    ensures p == p'
  {
    assert d * (p - p') == 0.0;
  }

  /** Dividing by a nonzero pivot is undone by multiplying with it. */
  lemma DivideByPivot(pivot: real, e: real, v: real)
    requires pivot != 0.0 && e == v / pivot
    ensures pivot * e == v
  {
  }

  /** The value the back loop stores at position i, (s - the dot product
      of the row with the later entries) / pivot, makes the row from the
      diagonal on add up to s. */
  lemma PivotDivision(u: Vector, x: Vector, w: Vector, i: nat, n: nat, s: real)
    requires i < n <= |u| && n <= |w| && |x| == |w| && u[i] != 0.0
    requires forall k :: 0 <= k < |w| && k != i ==> x[k] == w[k]
    requires x[i] == (s - Dot(u, w, i + 1, n)) / u[i]
    ensures Dot(u, x, i, n) == s
  {
    DotFrame(u, x, u, w, i + 1, n);
    DivideByPivot(u[i], x[i], s - Dot(u, w, i + 1, n));
    DotSplitLow(u, x, i, n);
  }

  /** One pass of the back loop: once the rows after i hold for w and entry
      i alone is replaced so that row i holds, rows i and after hold. */
  lemma BackStep(M: Matrix, w: Vector, x: Vector, y: Vector, i: nat, n: nat)
    requires IsSquare(M, n) && |w| >= n && |y| == n && i < n
    requires forall t :: i < t < n ==> BackRow(M, w, y, t, n)
    requires |x| == |w| && forall k :: 0 <= k < |w| && k != i ==> x[k] == w[k]
    requires BackRow(M, x, y, i, n)
    ensures forall t :: i <= t < n ==> BackRow(M, x, y, t, n)
  {
    forall t | i < t < n
      ensures BackRow(M, x, y, t, n)
    {
      assert BackRow(M, w, y, t, n);
      DotFrame(M[t], x, M[t], w, t, n);
    }
  }

  /** The pivots stored on the diagonal of M are all nonzero. */
  ghost predicate NonzeroPivots(M: Matrix, n: nat)
    requires IsSquare(M, n)
  {
    forall t :: 0 <= t < n ==> M[t][t] != 0.0
  }

  lemma {:induction false} LowerRowDot(M: Matrix, n: nat, y: Vector, r: nat, hi: nat)
    requires IsSquare(M, n) && |y| == n && r < n && hi <= n
    ensures Dot(Lower(M, n, n)[r], y, 0, hi) == Dot(M[r], y, 0, Min(hi, r)) + (if r < hi then y[r] else 0.0)
  {
    if hi > 0 {
      LowerRowDot(M, n, y, r, hi - 1);
      var k := hi - 1;
      var L := Lower(M, n, n);
      if k < r {
        assert L[r][k] == M[r][k];
      } else if k == r {
        assert L[r][k] == 1.0;
      } else {
        assert L[r][k] == 0.0;
      }
    }
  }

  lemma {:induction false} UpperRowDot(M: Matrix, n: nat, x: Vector, r: nat, hi: nat)
    requires IsSquare(M, n) && |x| == n && r < n && hi <= n
    ensures Dot(Upper(M, n, n)[r], x, 0, hi) == (if r < hi then Dot(M[r], x, r, hi) else 0.0)
  {
    if hi > 0 {
      UpperRowDot(M, n, x, r, hi - 1);
      var k := hi - 1;
      var U := Upper(M, n, n);
      if k < r {
        assert U[r][k] == 0.0;
      } else {
        assert U[r][k] == M[r][k];
      }
    }
  }

  /** The forward loop solves the unit lower triangular system. */
  lemma LowerSolves(M: Matrix, y: Vector, c: Vector, n: nat)
    requires IsSquare(M, n) && ForwardSolved(M, y, c, n)
    ensures MatVec(Lower(M, n, n), y, n) == c
  {
    forall r | 0 <= r < n
      ensures MatVec(Lower(M, n, n), y, n)[r] == c[r]
    {
      assert ForwardRow(M, y, c, r, n);
      LowerRowDot(M, n, y, r, n);
    }
  }

  /** The back loop solves the upper triangular system. */
  lemma UpperSolves(M: Matrix, x: Vector, y: Vector, n: nat)
    requires IsSquare(M, n) && BackSolved(M, x, y, n)
    ensures MatVec(Upper(M, n, n), x, n) == y
  {
    forall r | 0 <= r < n
      ensures MatVec(Upper(M, n, n), x, n)[r] == y[r]
    {
      assert BackRow(M, x, y, r, n);
      UpperRowDot(M, n, x, r, n);
    }
  }

  /** Row p[i] of A times x is entry i of (P * A) * x. */
  lemma PermutedProduct(A: Matrix, p: seq<nat>, x: Vector, n: nat, i: nat)
    requires IsSquare(A, n) && IsPermutation(p, n) && |x| == n && i < n
    ensures IsSquare(PermuteRows(A, p), n)
    ensures MatVec(PermuteRows(A, p), x, n)[i] == MatVec(A, x, n)[p[i]]
  {
  }

  /** When M and p factor A completely, substituting forward with the
      permuted right-hand side and then back gives a solution of A * x == b. */
  lemma SolveCorrect(A: Matrix, M: Matrix, p: seq<nat>, b: Vector, x: Vector, y: Vector, n: nat)
    requires Factored(A, M, p, n, n) && |b| == n
    requires ForwardSolved(M, y, PermuteRows(b, p), n) && BackSolved(M, x, y, n)
    ensures MatVec(A, x, n) == b
  {
    var L, U := Lower(M, n, n), Upper(M, n, n);
    LowerSolves(M, y, PermuteRows(b, p), n);
    UpperSolves(M, x, y, n);
    MatVecOfProduct(L, U, x, n);
    var Ax := MatVec(A, x, n);
    forall v | 0 <= v < n
      ensures Ax[v] == b[v]
    {
      assert v in p;
      var i :| 0 <= i < n && p[i] == v;
      PermutedProduct(A, p, x, n, i);
    }
  }

  /** A unit lower triangular system has only one solution. */
  lemma {:induction false} LowerUnique(M: Matrix, y: Vector, y': Vector, n: nat, t: nat)
    requires IsSquare(M, n) && |y| == n && |y'| == n && t <= n
    requires MatVec(Lower(M, n, n), y, n) == MatVec(Lower(M, n, n), y', n)
    ensures y[..t] == y'[..t]
  {
    if t > 0 {
      var r := t - 1;
      LowerUnique(M, y, y', n, r);
      assert forall k :: 0 <= k < r ==> y[k] == y'[k] by {
        forall k | 0 <= k < r
          ensures y[k] == y'[k]
        {
          assert y[..r][k] == y'[..r][k];
        }
      }
      DotFrame(M[r], y, M[r], y', 0, r);
      LowerRowDot(M, n, y, r, n);
      LowerRowDot(M, n, y', r, n);
      assert MatVec(Lower(M, n, n), y, n)[r] == MatVec(Lower(M, n, n), y', n)[r];
      assert y[..t] == y[..r] + [y[r]];
      assert y'[..t] == y'[..r] + [y'[r]];
    }
  }

  /** An upper triangular system with nonzero pivots has only one solution. */
  lemma {:induction false} UpperUnique(M: Matrix, x: Vector, x': Vector, n: nat, t: nat)
    requires IsSquare(M, n) && NonzeroPivots(M, n) && |x| == n && |x'| == n && t <= n
    requires MatVec(Upper(M, n, n), x, n) == MatVec(Upper(M, n, n), x', n)
    ensures x[t..] == x'[t..]
    decreases n - t
  {
    if t < n {
      UpperUnique(M, x, x', n, t + 1);
      assert forall k :: t + 1 <= k < n ==> x[k] == x'[k] by {
        forall k | t + 1 <= k < n
          ensures x[k] == x'[k]
        {
          assert x[t + 1..][k - t - 1] == x'[t + 1..][k - t - 1];
        }
      }
      UpperRowDot(M, n, x, t, n);
      UpperRowDot(M, n, x', t, n);
      assert MatVec(Upper(M, n, n), x, n)[t] == MatVec(Upper(M, n, n), x', n)[t];
      LeadingEntry(M[t], x, x', t, n);
      assert x[t..] == [x[t]] + x[t + 1..];
      assert x'[t..] == [x'[t]] + x'[t + 1..];
    }
  }

  /** A matrix that factors completely with nonzero pivots is nonsingular:
      two vectors with the same product are equal. */
  lemma SolutionUnique(A: Matrix, M: Matrix, p: seq<nat>, x: Vector, x': Vector, n: nat)
    requires Factored(A, M, p, n, n) && NonzeroPivots(M, n) && |x| == n && |x'| == n
    requires MatVec(A, x, n) == MatVec(A, x', n)
    ensures x == x'
  {
    var L, U := Lower(M, n, n), Upper(M, n, n);
    MatVecOfProduct(L, U, x, n);
    MatVecOfProduct(L, U, x', n);
    forall i | 0 <= i < n
      ensures MatVec(PermuteRows(A, p), x, n)[i] == MatVec(PermuteRows(A, p), x', n)[i]
    {
      PermutedProduct(A, p, x, n, i);
      PermutedProduct(A, p, x', n, i);
    }
    assert MatVec(PermuteRows(A, p), x, n) == MatVec(PermuteRows(A, p), x', n);
    LowerUnique(M, MatVec(U, x, n), MatVec(U, x', n), n, n);
    assert MatVec(U, x, n) == MatVec(U, x, n)[..n];
    assert MatVec(U, x', n) == MatVec(U, x', n)[..n];
    UpperUnique(M, x, x', n, 0);
    assert x == x[0..] && x' == x'[0..];
  }
}
