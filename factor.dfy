/**
 * The combined storage of an LU factorisation with partial pivoting
 * (Doolittle variant): the matrix holds the multipliers L - E below the
 * diagonal and U on and above it, so that P * A = L * U.
 *
 * While the decomposition runs, only the first s columns are eliminated.
 * Lower(M, s, n) and Upper(M, s, n) describe that intermediate state: the
 * rows and columns already finished, and the not-yet-eliminated block of
 * rows and columns s..n-1 as the last part of the upper factor.
 */
module Factorization {
  import opened LinearAlgebra
  import opened Permutations

  /** Unit lower factor after s steps: ones on the diagonal, the stored
      multipliers of the first s columns below it. */
  function Lower(M: Matrix, s: nat, n: nat): (L: Matrix)
    requires IsSquare(M, n)
    ensures IsSquare(L, n)
  {
    seq(n, r requires 0 <= r < n =>
      seq(n, k requires 0 <= k < n =>
        if k == r then 1.0 else if k < r && k < s then M[r][k] else 0.0))
  }

  /** Upper factor after s steps: the upper triangle of the first s rows,
      then columns s..n-1 of the remaining rows. */
  function Upper(M: Matrix, s: nat, n: nat): (U: Matrix)
    requires IsSquare(M, n)
    ensures IsSquare(U, n)
  {
    seq(n, k requires 0 <= k < n =>
      seq(n, c requires 0 <= c < n =>
        if k < s then (if k <= c then M[k][c] else 0.0)
        else if s <= c then M[k][c] else 0.0))
  }

  /** After s steps, M and p factor A: P * A = Lower * Upper. */
  ghost predicate Factored(A: Matrix, M: Matrix, p: seq<nat>, s: nat, n: nat)
  {
    && IsSquare(A, n) && IsSquare(M, n) && IsPermutation(p, n)
    && MatMul(Lower(M, s, n), Upper(M, s, n), n) == PermuteRows(A, p)
  }

  /** Entry (r, c) of Lower * Upper, read off the combined storage alone. */
  function Reassembled(M: Matrix, n: nat, s: nat, r: nat, c: nat): (e: real)
    requires IsSquare(M, n) && r < n && c < n
  {
    Dot(M[r], Column(M, c), 0, Min(Min(r, s), c + 1)) + (if c < r && c < s then 0.0 else M[r][c])
  }

  /** One elimination step on a row: the multiplier row[i] / pivot[i] is
      stored in column i and subtracted, times the pivot row, from the
      columns after i. */
  function EliminateRow(row: Vector, pivot: Vector, i: nat): (e: Vector)
    requires |row| == |pivot| && i < |pivot| && pivot[i] != 0.0
    ensures |e| == |row|
  {
    var m := row[i] / pivot[i];
    seq(|row|, c requires 0 <= c < |row| =>
      if c < i then row[c] else if c == i then m else row[c] - m * pivot[c])
  }

  /** Elimination step i: every row below the pivot row is eliminated. */
  function Eliminate(M: Matrix, i: nat, n: nat): (E: Matrix)
    requires IsSquare(M, n) && i < n && M[i][i] != 0.0
    ensures IsSquare(E, n)
    ensures forall r, c :: 0 <= r < n && 0 <= c < n && (r <= i || c < i) ==> E[r][c] == M[r][c]
  {
    seq(n, r requires 0 <= r < n => if i < r then EliminateRow(M[r], M[i], i) else M[r])
  }

  lemma {:induction false} ProductEntryPrefix(M: Matrix, n: nat, s: nat, r: nat, c: nat, hi: nat)
    requires IsSquare(M, n) && r < n && c < n && hi <= n
    ensures Dot(Lower(M, s, n)[r], Column(Upper(M, s, n), c), 0, hi)
         == Dot(M[r], Column(M, c), 0, Min(hi, Min(Min(r, s), c + 1)))
            + (if r < hi then Upper(M, s, n)[r][c] else 0.0)
  {
    if hi > 0 {
      ProductEntryPrefix(M, n, s, r, c, hi - 1);
      var k := hi - 1;
      var L, U := Lower(M, s, n), Upper(M, s, n);
      var T := Min(Min(r, s), c + 1);
      assert Column(U, c)[k] == U[k][c];
      if k < T {
        assert L[r][k] == M[r][k] && U[k][c] == M[k][c] && Column(M, c)[k] == M[k][c];
      } else if k == r {
        assert L[r][k] == 1.0;
      } else if k < s && k < r {
        assert U[k][c] == 0.0;
      } else {
        assert L[r][k] == 0.0;
      }
    }
  }

  /** Lower * Upper reassembles entry by entry from the combined storage. */
  lemma ProductEntry(M: Matrix, n: nat, s: nat, r: nat, c: nat)
    requires IsSquare(M, n) && r < n && c < n
    ensures MatMul(Lower(M, s, n), Upper(M, s, n), n)[r][c] == Reassembled(M, n, s, r, c)
  {
    ProductEntryPrefix(M, n, s, r, c, n);
  }

  lemma FactoredEntries(A: Matrix, M: Matrix, p: seq<nat>, s: nat, n: nat)
    requires Factored(A, M, p, s, n)
    ensures forall r, c :: 0 <= r < n && 0 <= c < n ==> A[p[r]][c] == Reassembled(M, n, s, r, c)
  {
    forall r, c | 0 <= r < n && 0 <= c < n
      ensures A[p[r]][c] == Reassembled(M, n, s, r, c)
    {
      ProductEntry(M, n, s, r, c);
      assert PermuteRows(A, p)[r] == A[p[r]];
    }
  }

  lemma FactoredOfEntries(A: Matrix, M: Matrix, p: seq<nat>, s: nat, n: nat)
    requires IsSquare(A, n) && IsSquare(M, n) && IsPermutation(p, n)
    requires forall r, c :: 0 <= r < n && 0 <= c < n ==> A[p[r]][c] == Reassembled(M, n, s, r, c)
    ensures Factored(A, M, p, s, n)
  {
    var LU := MatMul(Lower(M, s, n), Upper(M, s, n), n);
    var PA := PermuteRows(A, p);
    forall r | 0 <= r < n
      ensures LU[r] == PA[r]
    {
      forall c | 0 <= c < n
        ensures LU[r][c] == PA[r][c]
      {
        ProductEntry(M, n, s, r, c);
      }
    }
  }

  /** Before any step, the identity permutation and the matrix itself factor A. */
  lemma FactoredInitially(A: Matrix, n: nat)
    requires IsSquare(A, n)
    ensures Factored(A, A, Identity(n), 0, n)
  {
    IdentityIsPermutation(n);
    FactoredOfEntries(A, A, Identity(n), 0, n);
  }

  /** Exchanging two not-yet-eliminated rows together with their permutation
      entries keeps the factorisation. */
  lemma SwapStep(A: Matrix, M: Matrix, p: seq<nat>, i: nat, j: nat, n: nat)
    requires Factored(A, M, p, i, n) && i <= j < n
    ensures Factored(A, Swap(M, i, j), Swap(p, i, j), i, n)
  {
    var M' := Swap(M, i, j);
    var p' := Swap(p, i, j);
    SwapIsPermutation(p, n, i, j);
    FactoredEntries(A, M, p, i, n);
    forall r, c | 0 <= r < n && 0 <= c < n
      ensures A[p'[r]][c] == Reassembled(M', n, i, r, c)
    {
      var o := if r == i then j else if r == j then i else r;
      assert M'[r] == M[o] && p'[r] == p[o];
      SwapEntry(M, M', n, i, r, o, c);
    }
    FactoredOfEntries(A, M', p', i, n);
  }

  /** Entry (r, c) of row r of M' after an exchange, where row r of M' is
      row o of M and the finished rows above i are unchanged. */
  lemma SwapEntry(M: Matrix, M': Matrix, n: nat, i: nat, r: nat, o: nat, c: nat)
    requires IsSquare(M, n) && IsSquare(M', n) && i <= n && r < n && o < n && c < n
    requires M'[r] == M[o] && (r == o || (i <= r && i <= o))
    requires forall k :: 0 <= k < i ==> M'[k] == M[k]
    ensures Reassembled(M', n, i, r, c) == Reassembled(M, n, i, o, c)
  {
    var t := Min(Min(r, i), c + 1);
    assert t == Min(Min(o, i), c + 1);
    forall k | 0 <= k < t
      ensures Column(M', c)[k] == Column(M, c)[k]
    {
      assert M'[k] == M[k];
    }
    DotFrame(M'[r], Column(M', c), M[o], Column(M, c), 0, t);
  }

  /** Eliminating below a nonzero pivot advances the factorisation by one column. */
  lemma EliminationStep(A: Matrix, M: Matrix, p: seq<nat>, i: nat, n: nat)
    requires Factored(A, M, p, i, n) && i < n && M[i][i] != 0.0
    ensures Factored(A, Eliminate(M, i, n), p, i + 1, n)
  {
    var E := Eliminate(M, i, n);
    FactoredEntries(A, M, p, i, n);
    forall r, c | 0 <= r < n && 0 <= c < n
      ensures Reassembled(E, n, i + 1, r, c) == Reassembled(M, n, i, r, c)
    {
      EliminationEntry(M, E, n, i, r, c);
    }
    FactoredOfEntries(A, E, p, i + 1, n);
  }

  lemma EliminationEntry(M: Matrix, E: Matrix, n: nat, i: nat, r: nat, c: nat)
    requires IsSquare(M, n) && i < n && M[i][i] != 0.0 && E == Eliminate(M, i, n)
    requires r < n && c < n
    ensures Reassembled(E, n, i + 1, r, c) == Reassembled(M, n, i, r, c)
  {
    if r <= i || c < i {
      // Only rows above i and columns before i are read, and they are unchanged.
      var t := Min(Min(r, i), c + 1);
      assert t == Min(Min(r, i + 1), c + 1);
      assert E[r][c] == M[r][c];
      forall k | 0 <= k < t
        ensures E[r][k] == M[r][k] && Column(E, c)[k] == Column(M, c)[k]
      {
        assert E[k] == M[k];
      }
      DotFrame(E[r], Column(E, c), M[r], Column(M, c), 0, t);
    } else {
      forall k | 0 <= k <= i
        ensures E[k] == M[k]
      {
      }
      EliminationEntryBelow(M, E, n, i, r, c);
    }
  }

  /** For a row below the pivot and a column from i on, the new term for
      column i cancels the change of entry (r, c). */
  lemma EliminationEntryBelow(M: Matrix, E: Matrix, n: nat, i: nat, r: nat, c: nat)
    requires IsSquare(M, n) && IsSquare(E, n) && i < n && M[i][i] != 0.0
    requires i < r < n && i <= c < n
    requires forall k :: 0 <= k <= i ==> E[k] == M[k]
    requires E[r] == EliminateRow(M[r], M[i], i)
    ensures Reassembled(E, n, i + 1, r, c) == Reassembled(M, n, i, r, c)
  {
    var m := M[r][i] / M[i][i];
    assert E[r][i] == m;
    forall k | 0 <= k < i
      ensures E[r][k] == M[r][k] && Column(E, c)[k] == Column(M, c)[k]
    {
      assert E[k] == M[k];
    }
    DotFrame(E[r], Column(E, c), M[r], Column(M, c), 0, i);
    var d := Dot(M[r], Column(M, c), 0, i);
    assert Min(Min(r, i + 1), c + 1) == i + 1;
    assert Min(Min(r, i), c + 1) == i;
    assert Column(E, c)[i] == M[i][c];
    assert Dot(E[r], Column(E, c), 0, i + 1) == d + m * M[i][c];
    assert Reassembled(M, n, i, r, c) == d + M[r][c];
    if c == i {
      assert m * M[i][i] == M[r][i];
      assert Reassembled(E, n, i + 1, r, c) == d + m * M[i][c];
    } else {
      assert E[r][c] == M[r][c] - m * M[i][c];
      assert Reassembled(E, n, i + 1, r, c) == d + m * M[i][c] + (M[r][c] - m * M[i][c]);
    }
  }

  /** Row 0 of the combined storage is row p[0] of A, whatever the step. */
  lemma FactoredFirstRow(A: Matrix, M: Matrix, p: seq<nat>, s: nat, n: nat, c: nat)
    requires Factored(A, M, p, s, n) && c < n
    ensures M[0][c] == A[p[0]][c]
  {
    FactoredEntries(A, M, p, s, n);
    assert Reassembled(M, n, s, 0, c) == M[0][c];
  }

  /** After the first step on a 2x2 matrix the two pivots multiply to the
      determinant of P * A. */
  lemma FactoredTwoByTwo(A: Matrix, M: Matrix, p: seq<nat>)
    requires Factored(A, M, p, 1, 2)
    ensures A[p[0]][0] * A[p[1]][1] - A[p[1]][0] * A[p[0]][1] == M[0][0] * M[1][1]
  {
    FactoredEntries(A, M, p, 1, 2);
    assert A[p[0]][0] == Reassembled(M, 2, 1, 0, 0) == M[0][0];
    assert A[p[0]][1] == Reassembled(M, 2, 1, 0, 1) == M[0][1];
    assert A[p[1]][0] == Reassembled(M, 2, 1, 1, 0) == M[1][0] * M[0][0];
    assert A[p[1]][1] == Reassembled(M, 2, 1, 1, 1) == M[1][0] * M[0][1] + M[1][1];
    PivotProduct(A[p[0]][0], A[p[0]][1], A[p[1]][0], A[p[1]][1], M[0][0], M[0][1], M[1][0], M[1][1]);
  }

  lemma PivotProduct(a00: real, a01: real, a10: real, a11: real, m00: real, m01: real, m10: real, m11: real)
    requires a00 == m00 && a01 == m01 && a10 == m10 * m00 && a11 == m10 * m01 + m11
    ensures a00 * a11 - a10 * a01 == m00 * m11
  {
  }
}
