/**
 * The linear solver of PolyFit.cpp: in-place LU decomposition with partial
 * pivoting (LUPDecompose) and the solve built on it (LUPSolve).
 *
 * A matrix is an `array<seq<real>>`: the outer vector of rows is updated in
 * place, a row swap exchanges two of its elements, and an element update
 * replaces one entry of a row.
 */
module LinearSolver {
  import opened LinearAlgebra
  import opened Permutations
  import opened Factorization
  import opened Substitution

  /** The pivot tolerance LUPSolve passes to LUPDecompose: 1e-12. */
  const Tol: real := 1.0 / 1000000000000.0

  /** The first s pivots have magnitude at least tol. */
  ghost predicate PivotsClear(M: Matrix, s: nat, n: nat, tol: real)
    requires IsSquare(M, n) && s <= n
  {
    forall t :: 0 <= t < s ==> Abs(M[t][t]) >= tol
  }

  /** The multipliers stored in the first s columns have magnitude at most one. */
  ghost predicate MultipliersBounded(M: Matrix, s: nat, n: nat)
    requires IsSquare(M, n) && s <= n
  {
    forall j, t :: 0 <= t < s && t < j < n ==> Abs(M[j][t]) <= 1.0
  }

  /** Row i holds an entry of largest magnitude among rows i..n-1 of column i. */
  ghost predicate PivotIsMax(M: Matrix, i: nat, n: nat)
    requires IsSquare(M, n) && i < n
  {
    forall k :: i <= k < n ==> Abs(M[k][i]) <= Abs(M[i][i])
  }

  /** A finished decomposition: the factorisation holds for all n columns,
      every pivot clears the tolerance and, because the pivot was the column
      maximum, every stored multiplier has magnitude at most one. */
  ghost predicate Completed(A: Matrix, M: Matrix, p: seq<nat>, n: nat, tol: real)
  {
    && Factored(A, M, p, n, n)
    && PivotsClear(M, n, n, tol)
    && MultipliersBounded(M, n, n)
  }

  /** A decomposition that stopped before column s: the first s columns are
      factored with acceptable pivots that were column maxima (so their
      multipliers have magnitude at most one), and every candidate pivot of
      column s is below the tolerance. */
  ghost predicate Stalled(A: Matrix, M: Matrix, p: seq<nat>, s: nat, n: nat, tol: real)
  {
    && s < n
    && Factored(A, M, p, s, n)
    && PivotsClear(M, s, n, tol)
    && MultipliersBounded(M, s, n)
    && (forall k :: s <= k < n ==> Abs(M[k][s]) < tol)
  }

  /** The scan of column i over rows i..n-1 for the entry of largest
      magnitude; the strict comparison keeps the first such row. */
  method PivotSearch(a: array<seq<real>>, n: nat, i: nat) returns (maxA: real, imax: nat)
    requires a.Length == n && IsSquare(a[..], n) && i < n
    ensures i <= imax < n
    ensures maxA == Abs(a[imax][i])
    ensures forall k :: i <= k < n ==> Abs(a[k][i]) <= maxA
    ensures forall k :: i <= k < imax ==> Abs(a[k][i]) < maxA
  {
    maxA := 0.0;
    imax := i;
    var k := i;
    while k < n
      invariant i <= k <= n && i <= imax < n && 0.0 <= maxA
      invariant imax < k || imax == i
      invariant k == i ==> maxA == 0.0
      invariant i < k ==> maxA == Abs(a[imax][i])
      invariant forall t :: i <= t < k ==> Abs(a[t][i]) <= maxA
      invariant forall t :: i <= t < imax ==> Abs(a[t][i]) < maxA
    {
      var absA := Abs(a[k][i]);
      if absA > maxA {
        maxA := absA;
        imax := k;
      } else if k == i {
        assert absA == 0.0 == maxA;
      }
      k := k + 1;
    }
  }

  lemma ProductPositive(x: real, y: real)
    requires x > 0.0 && y > 0.0
    ensures x * y > 0.0
  {
  }

  /** A factor q with q * d == m lies in [-1, 1] when d > 0 and |m| <= d. */
  lemma ScaledBound(q: real, d: real, m: real)
    requires d > 0.0 && q * d == m && -d <= m <= d
    ensures -1.0 <= q <= 1.0
  {
    if q > 1.0 {
      ProductPositive(q - 1.0, d);
    }
    if q < -1.0 {
      ProductPositive(-1.0 - q, d);
    }
  }

  /** |m / d| <= 1 when |m| <= |d| and d is nonzero. */
  lemma MultiplierBound(m: real, d: real)
    requires d != 0.0 && Abs(m) <= Abs(d)
    ensures Abs(m / d) <= 1.0
  {
    var q := m / d;
    assert q * d == m;
    if d > 0.0 {
      ScaledBound(q, d, m);
    } else {
      assert q * (-d) == -m;
      ScaledBound(q, -d, -m);
    }
  }

  /** Exchanging row i with a row j below it moves the column maximum into
      row i and leaves the finished pivots and multipliers in place. */
  lemma SwapKeepsBounds(M: Matrix, n: nat, i: nat, j: nat, tol: real)
    requires IsSquare(M, n) && i <= j < n
    requires PivotsClear(M, i, n, tol) && MultipliersBounded(M, i, n)
    requires forall k :: i <= k < n ==> Abs(M[k][i]) <= Abs(M[j][i])
    ensures PivotsClear(Swap(M, i, j), i, n, tol) && MultipliersBounded(Swap(M, i, j), i, n)
    ensures PivotIsMax(Swap(M, i, j), i, n)
  {
    var M' := Swap(M, i, j);
    forall k | i <= k < n
      ensures Abs(M'[k][i]) <= Abs(M'[i][i])
    {
      assert M'[k] == M[if k == i then j else if k == j then i else k];
    }
    forall r, t | 0 <= t < i && t < r < n
      ensures Abs(M'[r][t]) <= 1.0
    {
      assert M'[r] == M[if r == i then j else if r == j then i else r];
    }
  }

  /** Eliminating below a maximal pivot that clears tol finishes column i:
      its pivot clears tol and its multipliers have magnitude at most one. */
  lemma EliminationKeepsBounds(M: Matrix, n: nat, i: nat, tol: real)
    requires IsSquare(M, n) && i < n && tol > 0.0 && Abs(M[i][i]) >= tol
    requires PivotsClear(M, i, n, tol) && MultipliersBounded(M, i, n) && PivotIsMax(M, i, n)
    ensures PivotsClear(Eliminate(M, i, n), i + 1, n, tol)
    ensures MultipliersBounded(Eliminate(M, i, n), i + 1, n)
  {
    var E := Eliminate(M, i, n);
    forall t | 0 <= t < i + 1
      ensures Abs(E[t][t]) >= tol
    {
      assert E[t] == M[t];
    }
    forall r, t | 0 <= t < i + 1 && t < r < n
      ensures Abs(E[r][t]) <= 1.0
    {
      if i < r {
        assert E[r] == EliminateRow(M[r], M[i], i);
        if t == i {
          MultiplierBound(M[r][i], M[i][i]);
        }
      } else {
        assert E[r] == M[r];
      }
    }
  }

  /** The state of the decomposition after s columns: `q` is the
      permutation reached by the exchanges in `swaps`, M and q factor A, and
      the finished pivots and multipliers are within bounds. */
  ghost predicate Progress(A: Matrix, M: Matrix, q: seq<nat>, swaps: seq<(nat, nat)>, s: nat, n: nat, tol: real)
  {
    && s <= n && IsSquare(M, n)
    && ValidSwaps(swaps, n) && q == ApplySwaps(Identity(n), swaps)
    && Factored(A, M, q, s, n)
    && PivotsClear(M, s, n, tol) && MultipliersBounded(M, s, n)
  }

  lemma StartProgress(A: Matrix, n: nat, tol: real)
    requires IsSquare(A, n)
    ensures Progress(A, A, Identity(n), [], 0, n, tol)
  {
    FactoredInitially(A, n);
  }

  /** Exchanging row i with the row j > i that holds the column maximum,
      and recording the exchange, keeps the progress of step i. */
  lemma ExchangeProgress(A: Matrix, M: Matrix, q: seq<nat>, swaps: seq<(nat, nat)>, i: nat, j: nat, n: nat, tol: real)
    requires Progress(A, M, q, swaps, i, n, tol) && i < j < n
    requires forall k :: i <= k < n ==> Abs(M[k][i]) <= Abs(M[j][i])
    ensures Progress(A, Swap(M, i, j), Swap(q, i, j), swaps + [(i, j)], i, n, tol)
    ensures PivotIsMax(Swap(M, i, j), i, n) && Swap(M, i, j)[i] == M[j]
  {
    SwapStep(A, M, q, i, j, n);
    SwapKeepsBounds(M, n, i, j, tol);
    var sw := swaps + [(i, j)];
    assert sw[..|sw| - 1] == swaps;
  }

  /** Eliminating below a maximal pivot that clears tol completes step i. */
  lemma EliminationProgress(A: Matrix, M: Matrix, q: seq<nat>, swaps: seq<(nat, nat)>, i: nat, n: nat, tol: real)
    requires Progress(A, M, q, swaps, i, n, tol) && i < n && tol > 0.0
    requires PivotIsMax(M, i, n) && Abs(M[i][i]) >= tol
    ensures Progress(A, Eliminate(M, i, n), q, swaps, i + 1, n, tol)
  {
    EliminationStep(A, M, q, i, n);
    EliminationKeepsBounds(M, n, i, tol);
  }

  /** The exchange list of a decomposition state is fixed by the
      permutation it reached, so P[n] = n + |swaps| is a function of
      P[0..n-1]: any two ascending exchange lists reaching q coincide. */
  lemma ExchangesDetermined(A: Matrix, M: Matrix, M': Matrix, q: seq<nat>, sw: seq<(nat, nat)>, sw': seq<(nat, nat)>,
                            s: nat, s': nat, n: nat, tol: real)
    requires Progress(A, M, q, sw, s, n, tol) && Ascending(sw)
    requires Progress(A, M', q, sw', s', n, tol) && Ascending(sw')
    ensures sw == sw'
  {
    assert Distinct(Identity(n));
    AscendingSwapsUnique(Identity(n), sw, sw');
  }

  /**
   * LU decomposition with partial pivoting of the n x n matrix in `a`, in
   * place; `p` receives the row permutation and, in p[n], n plus the number
   * of row exchanges. Returns 1 when all n pivots clear `tol`, 0 when it
   * meets a column whose candidate pivots are all below `tol`.
   *
   * The ghost result `done` is the number of columns eliminated, and `swaps`
   * lists the row exchanges in the order they were performed.
   */
  method LUPDecompose(a: array<seq<real>>, n: nat, tol: real, p: array<nat>)
      returns (r: int, ghost done: nat, ghost swaps: seq<(nat, nat)>)
    requires a.Length == n && IsSquare(a[..], n) && p.Length == n + 1
    requires tol > 0.0
    modifies a, p
    ensures r == 0 || r == 1
    ensures done <= n && (r == 1 <==> done == n)
    ensures IsPermutation(p[..n], n) && p[n] == n + |swaps|
    ensures Progress(old(a[..]), a[..], p[..n], swaps, done, n, tol)
    ensures Ascending(swaps) && forall t :: 0 <= t < |swaps| ==> swaps[t].0 < done
    ensures r == 0 ==> forall k :: done <= k < n ==> Abs(a[k][done]) < tol
  {
    ghost var a0 := a[..];
    var i: nat := 0;
    while i <= n
      invariant 0 <= i <= n + 1
      invariant forall k :: 0 <= k < i ==> p[k] == k
      modifies p
    {
      p[i] := i;
      i := i + 1;
    }
    assert p[..n] == Identity(n);
    assert a[..] == a0;
    StartProgress(a0, n, tol);
    swaps := [];

    i := 0;
    while i < n
      invariant 0 <= i <= n && p[n] == n + |swaps|
      invariant Progress(a0, a[..], p[..n], swaps, i, n, tol)
      invariant Ascending(swaps) && forall t :: 0 <= t < |swaps| ==> swaps[t].0 < i
    {
      var found;
      ghost var pivotRow;
      found, pivotRow, swaps := DecomposeColumn(a, n, tol, p, i, a0, swaps);
      if !found {
        return 0, i, swaps;
      }
      i := i + 1;
    }
    r, done := 1, n;
  }

  /**
   * Step i of the decomposition (one pass of its outer loop): find the
   * pivot of column i; if it is below tol, report that and change nothing;
   * otherwise bring it into row i, recording the exchange, and eliminate
   * below it. The ghost result `pivotRow` is the row the pivot came from:
   * the first row holding the column maximum.
   */
  method DecomposeColumn(a: array<seq<real>>, n: nat, tol: real, p: array<nat>, i: nat,
                         ghost a0: Matrix, ghost swaps: seq<(nat, nat)>)
      returns (found: bool, ghost pivotRow: nat, ghost swaps': seq<(nat, nat)>)
    requires a.Length == n && p.Length == n + 1 && i < n && tol > 0.0
    requires Progress(a0, a[..], p[..n], swaps, i, n, tol) && p[n] == n + |swaps|
    modifies a, p
    ensures p[n] == n + |swaps'|
    ensures !found ==> a[..] == old(a[..]) && p[..] == old(p[..]) && swaps' == swaps
    ensures !found ==> forall k :: i <= k < n ==> Abs(a[k][i]) < tol
    ensures found ==> i <= pivotRow < n && Abs(old(a[pivotRow][i])) >= tol
    ensures found ==> forall k :: i <= k < n ==> Abs(old(a[k][i])) <= Abs(old(a[pivotRow][i]))
    ensures found ==> forall k :: i <= k < pivotRow ==> Abs(old(a[k][i])) < Abs(old(a[pivotRow][i]))
    ensures found ==> Swap(old(a[..]), i, pivotRow)[i][i] != 0.0
    ensures found ==> a[..] == Eliminate(Swap(old(a[..]), i, pivotRow), i, n)
    ensures found ==> p[..n] == Swap(old(p[..n]), i, pivotRow)
    ensures found ==> swaps' == (if pivotRow == i then swaps else swaps + [(i, pivotRow)])
    ensures found ==> Progress(a0, a[..], p[..n], swaps', i + 1, n, tol)
  {
    ghost var M, q := a[..], p[..n];
    ghost var M0 := M;
    swaps' := swaps;
    var maxA, imax := PivotSearch(a, n, i);
    pivotRow := imax;
    if maxA < tol {
      return false, pivotRow, swaps';
    }

    if imax == i {
      assert Swap(M, i, i) == M;
      assert Swap(q, i, i) == q;
    } else {
      ExchangeRows(a, n, p, i, imax);
      ExchangeProgress(a0, M, q, swaps, i, imax, n, tol);
      M, swaps' := Swap(M, i, imax), swaps + [(i, imax)];
    }

    // Row i now holds the pivot: the column maximum, at least tol.
    assert PivotIsMax(M, i, n) && Abs(M[i][i]) >= tol;
    assert M == Swap(M0, i, imax);
    EliminateBelow(a, n, i);
    EliminationProgress(a0, M, p[..n], swaps', i, n, tol);
    found := true;
  }

  /** Elimination step i (the loop over rows j > i): every row below the
      pivot row is eliminated. */
  method EliminateBelow(a: array<seq<real>>, n: nat, i: nat)
    requires a.Length == n && IsSquare(a[..], n) && i < n && a[i][i] != 0.0
    modifies a
    ensures a[..] == Eliminate(old(a[..]), i, n)
  {
    ghost var M := a[..];
    var j := i + 1;
    while j < n
      invariant i + 1 <= j <= n
      invariant forall t :: 0 <= t < n ==> a[t] == (if i < t < j then EliminateRow(M[t], M[i], i) else M[t])
      modifies a
    {
      EliminateRowBelow(a, n, i, j);
      j := j + 1;
    }
    assert a[..] == Eliminate(M, i, n);
  }

  /** Row j below the pivot row i: the multiplier a[j][i] / a[i][i] is
      stored in column i, then the loop over columns k > i subtracts that
      multiple of the pivot row. */
  method EliminateRowBelow(a: array<seq<real>>, n: nat, i: nat, j: nat)
    requires a.Length == n && IsSquare(a[..], n) && i < j < n && a[i][i] != 0.0
    modifies a
    ensures a[..] == old(a[..])[j := EliminateRow(old(a[j]), old(a[i]), i)]
  {
    ghost var before := a[..];
    ghost var row, pivot := a[j], a[i];
    a[j] := a[j][i := a[j][i] / a[i][i]];
    var k := i + 1;
    while k < n
      invariant i + 1 <= k <= n && |a[j]| == n && a[i] == pivot
      invariant forall c :: 0 <= c < n ==>
        a[j][c] == (if c == i then row[i] / pivot[i]
                    else if i < c < k then row[c] - (row[i] / pivot[i]) * pivot[c]
                    else row[c])
      invariant forall t :: 0 <= t < n && t != j ==> a[t] == before[t]
      modifies a
    {
      a[j] := a[j][k := a[j][k] - a[j][i] * a[i][k]];
      k := k + 1;
    }
    forall c | 0 <= c < n
      ensures a[j][c] == EliminateRow(row, pivot, i)[c]
    {
    }
    assert a[j] == EliminateRow(row, pivot, i);
    assert a[..] == before[j := EliminateRow(row, pivot, i)];
  }

  /** The row exchange of LUPDecompose: rows i and j of the matrix and
      entries i and j of the permutation trade places, and the exchange
      counter p[n] goes up by one. */
  method ExchangeRows(a: array<seq<real>>, n: nat, p: array<nat>, i: nat, j: nat)
    requires a.Length == n && p.Length == n + 1 && i < n && j < n && i != j
    modifies a, p
    ensures a[..] == Swap(old(a[..]), i, j)
    ensures p[..n] == Swap(old(p[..n]), i, j) && p[n] == old(p[n]) + 1
  {
    var k := p[i];
    p[i] := p[j];
    p[j] := k;
    a[i], a[j] := a[j], a[i];
    p[n] := p[n] + 1;
  }

  /**
   * Solves A * x == b for the n x n matrix in `a`: decomposes `a` in place
   * with the tolerance Tol, then substitutes forward with the permuted
   * right-hand side and back. Returns 0 on success and 1, leaving x alone,
   * when the decomposition stalls. The ghost results are the permutation
   * the decomposition produced and the number of columns it finished.
   */
  method LUPSolve(x: array<real>, a: array<seq<real>>, b: seq<real>, n: nat)
      returns (r: int, ghost perm: seq<nat>, ghost done: nat)
    requires a.Length == n && IsSquare(a[..], n) && x.Length >= n && |b| >= n
    modifies x, a
    ensures r == 0 || r == 1
    ensures x[n..] == old(x[n..])
    ensures r == 1 ==> x[..] == old(x[..]) && Stalled(old(a[..]), a[..], perm, done, n, Tol)
    ensures r == 0 ==> Completed(old(a[..]), a[..], perm, n, Tol)
    ensures r == 0 ==> MatVec(old(a[..]), x[..n], n) == b[..n]
    ensures r == 0 ==> forall z :: |z| == n && MatVec(old(a[..]), z, n) == b[..n] ==> z == x[..n]
  {
    ghost var A := a[..];
    var p := new nat[n + 1](_ => 0);
    var ok, columns, swaps := LUPDecompose(a, n, Tol, p);
    perm, done := p[..n], columns;
    if ok == 0 {
      return 1, perm, done;
    }
    ghost var M := a[..];
    assert NonzeroPivots(M, n) by {
      forall t | 0 <= t < n
        ensures M[t][t] != 0.0
      {
        assert Abs(M[t][t]) >= Tol;
      }
    }
    ForwardSubstitute(x, a, b, p, n);
    ghost var y := x[..n];
    BackSubstitute(x, a, n);
    SolveCorrect(A, M, perm, b[..n], x[..n], y, n);
    forall z | |z| == n && MatVec(A, z, n) == b[..n]
      ensures z == x[..n]
    {
      SolutionUnique(A, M, perm, z, x[..n], n);
    }
    r := 0;
  }

  /** The forward loop of LUPSolve: x[i] starts as b[P[i]] and loses the
      stored multipliers times the entries already computed. */
  method ForwardSubstitute(x: array<real>, a: array<seq<real>>, b: seq<real>, p: array<nat>, n: nat)
    requires a.Length == n && IsSquare(a[..], n) && x.Length >= n && |b| >= n
    requires p.Length >= n && forall t :: 0 <= t < n ==> p[t] < n
    modifies x
    ensures x[n..] == old(x[n..])
    ensures ForwardSolved(a[..], x[..n], PermuteRows(b[..n], p[..n]), n)
  {
    ghost var M := a[..];
    ghost var c := PermuteRows(b[..n], p[..n]);
    var i := 0;
    while i < n
      invariant 0 <= i <= n
      invariant forall t :: n <= t < x.Length ==> x[t] == old(x[t])
      invariant forall t :: 0 <= t < i ==> ForwardRow(M, x[..], c, t, n)
    {
      ghost var w := x[..];
      x[i] := b[p[i]];
      ghost var w1 := x[..];
      SubtractProducts(x, a[i], i, 0, i);
      assert x[i] + Dot(M[i], w1, 0, i) == c[i];
      DotFrame(M[i], x[..], M[i], w1, 0, i);
      forall t | 0 <= t < i
        ensures ForwardRow(M, x[..], c, t, n)
      {
        assert ForwardRow(M, w, c, t, n) && x[t] == w[t];
        DotFrame(M[t], x[..], M[t], w, 0, t);
      }
      i := i + 1;
    }
    forall t | 0 <= t < n
      ensures ForwardRow(M, x[..n], c, t, n)
    {
      RowsPrefix(M, x[..], c, t, n);
    }
    assert x[n..] == old(x[n..]);
  }

  /** The back loop of LUPSolve, from the last row up: x[i] loses the
      entries of row i right of the diagonal times the entries already
      computed, then is divided by the pivot. */
  method BackSubstitute(x: array<real>, a: array<seq<real>>, n: nat)
    requires a.Length == n && IsSquare(a[..], n) && x.Length >= n && NonzeroPivots(a[..], n)
    modifies x
    ensures x[n..] == old(x[n..])
    ensures BackSolved(a[..], x[..n], old(x[..n]), n)
  {
    ghost var M := a[..];
    ghost var y := x[..n];
    var i: int := n - 1;
    while i >= 0
      invariant -1 <= i < n
      invariant forall t :: n <= t < x.Length ==> x[t] == old(x[t])
      invariant forall t :: i < t < n ==> BackRow(M, x[..], y, t, n)
      invariant forall t :: 0 <= t <= i ==> x[t] == y[t]
    {
      ghost var w := x[..];
      SubtractProducts(x, a[i], i, i + 1, n);
      x[i] := x[i] / a[i][i];
      PivotDivision(M[i], x[..], w, i, n, y[i]);
      BackStep(M, w, x[..], y, i, n);
      i := i - 1;
    }
    forall t | 0 <= t < n
      ensures BackRow(M, x[..n], y, t, n)
    {
      RowsPrefix(M, x[..], y, t, n);
    }
    assert x[n..] == old(x[n..]);
  }

  /** The inner loops of both substitutions: x[i] loses row[k] * x[k] for
      every k in [lo, hi), a range that does not contain i. */
  method SubtractProducts(x: array<real>, row: seq<real>, i: nat, lo: nat, hi: nat)
    requires i < x.Length && lo <= hi <= |row| && hi <= x.Length && (i < lo || hi <= i)
    modifies x
    ensures x[..] == old(x[..])[i := old(x[i]) - Dot(row, old(x[..]), lo, hi)]
  {
    ghost var w := x[..];
    var k := lo;
    while k < hi
      invariant lo <= k <= hi
      invariant x[..] == w[i := x[i]]
      invariant x[i] == w[i] - Dot(row, w, lo, k)
    {
      x[i] := x[i] - row[k] * x[k];
      k := k + 1;
    }
  }

  /** A completed decomposition certifies that A is invertible: distinct
      vectors have distinct images under A. */
  lemma CompletedIsInjective(A: Matrix, M: Matrix, p: seq<nat>, z: Vector, z': Vector, n: nat)
    requires Completed(A, M, p, n, Tol) && |z| == n && |z'| == n
    requires MatVec(A, z, n) == MatVec(A, z', n)
    ensures z == z'
  {
    forall t | 0 <= t < n
      ensures M[t][t] != 0.0
    {
      assert Abs(M[t][t]) >= Tol;
    }
    SolutionUnique(A, M, p, z, z', n);
  }
}
