/**
 * The polynomial fitter of PolyFit.cpp: one pass over the samples
 * accumulates the power sums and the y-weighted power sums, the normal
 * matrix is filled from the power sums as a Hankel matrix, and the normal
 * equations are handed to LUPSolve.
 */
module PolynomialFit {
  import opened LinearAlgebra
  import opened Permutations
  import opened Factorization
  import opened Substitution
  import opened LinearSolver

  /** x^j, the j-th rung of the power ladder 1, x, x*x, ... */
  function Pow(x: real, j: nat): (r: real)
  {
    if j == 0 then 1.0 else Pow(x, j - 1) * x
  }

  /** y * x^j as the fitter builds it: y times the running power
      (see WeightedIsProduct). */
  function Weighted(y: real, x: real, j: nat): (r: real)
  {
    if j == 0 then y else Weighted(y, x, j - 1) * x
  }

  /** The power sum xs[0]^j + ... + xs[m-1]^j. */
  function PowerSum(xs: seq<real>, j: nat, m: nat): (r: real)
    requires m <= |xs|
  {
    if m == 0 then 0.0 else PowerSum(xs, j, m - 1) + Pow(xs[m - 1], j)
  }

  /** The y-weighted power sum ys[0] * xs[0]^j + ... + ys[m-1] * xs[m-1]^j. */
  function MomentSum(xs: seq<real>, ys: seq<real>, j: nat, m: nat): (r: real)
    requires m <= |xs| && m <= |ys|
  {
    if m == 0 then 0.0 else MomentSum(xs, ys, j, m - 1) + Weighted(ys[m - 1], xs[m - 1], j)
  }

  /** The normal matrix X'X of a fit of the given order: entry (r, c) is
      the power sum of exponent r + c over all samples. */
  function NormalMatrix(xs: seq<real>, order: nat): (X: Matrix)
    ensures IsSquare(X, order + 1)
  {
    seq(order + 1, r requires 0 <= r < order + 1 =>
      seq(order + 1, c requires 0 <= c < order + 1 => PowerSum(xs, r + c, |xs|)))
  }

  /** The normal vector X'y: entry j is the y-weighted power sum of exponent j. */
  function NormalVector(xs: seq<real>, ys: seq<real>, order: nat): (v: Vector)
    requires |ys| >= |xs|
    ensures |v| == order + 1
  {
    seq(order + 1, j requires 0 <= j < order + 1 => MomentSum(xs, ys, j, |xs|))
  }

  /** The design matrix X, never built by the fitter: row i is the power
      ladder 1, xs[i], ..., xs[i]^order of sample i. */
  function Design(xs: seq<real>, order: nat): (D: Matrix)
    ensures |D| == |xs| && forall i :: 0 <= i < |D| ==> |D[i]| == order + 1
  {
    seq(|xs|, i requires 0 <= i < |xs| =>
      seq(order + 1, j requires 0 <= j < order + 1 => Pow(xs[i], j)))
  }

  /** The coefficient vector after `resize(n, 0.0)`: the old entries that
      fit, then zeros. */
  function Resized(prev: seq<real>, n: nat): (r: seq<real>)
    ensures |r| == n
  {
    seq(n, k requires 0 <= k < n => if k < |prev| then prev[k] else 0.0)
  }

  /** Some run of the decomposition with tolerance Tol stops at a column
      whose candidate pivots are all below the tolerance. */
  ghost predicate DecompositionStalls(A: Matrix, n: nat)
  {
    exists M, p, s :: Stalled(A, M, p, s, n, Tol)
  }

  /** The decomposition with tolerance Tol factors all n columns. */
  ghost predicate DecompositionCompletes(A: Matrix, n: nat)
  {
    exists M, p :: Completed(A, M, p, n, Tol)
  }

  lemma {:induction false} WeightedIsProduct(y: real, x: real, j: nat)
    ensures Weighted(y, x, j) == y * Pow(x, j)
  {
    if j > 0 {
      WeightedIsProduct(y, x, j - 1);
      assert y * Pow(x, j - 1) * x == y * (Pow(x, j - 1) * x);
    }
  }

  lemma WeightedTerm(y: real, x: real, j: nat, a: real)
    requires a == Pow(x, j)
    ensures y * a == Weighted(y, x, j)
  {
    WeightedIsProduct(y, x, j);
  }

  /** Multiplying the running power by x climbs one rung of the ladder. */
  lemma PowStep(x: real, j: nat, a: real)
    requires a == Pow(x, j)
    ensures a * x == Pow(x, j + 1)
  {}

  lemma {:induction false} PowAdd(x: real, a: nat, b: nat)
    ensures Pow(x, a + b) == Pow(x, a) * Pow(x, b)
    decreases b
  {
    if b > 0 {
      PowAdd(x, a, b - 1);
      assert Pow(x, a + b) == Pow(x, a + b - 1) * x;
      assert Pow(x, a) * Pow(x, b - 1) * x == Pow(x, a) * (Pow(x, b - 1) * x);
    }
  }

  lemma {:induction false} PowerSumIsDot(xs: seq<real>, order: nat, r: nat, c: nat, m: nat)
    requires r <= order && c <= order && m <= |xs|
    ensures PowerSum(xs, r + c, m) == Dot(Column(Design(xs, order), r), Column(Design(xs, order), c), 0, m)
  {
    if m > 0 {
      PowerSumIsDot(xs, order, r, c, m - 1);
      var u, v := Column(Design(xs, order), r), Column(Design(xs, order), c);
      assert u[m - 1] * v[m - 1] == Pow(xs[m - 1], r + c) by {
        DesignTerm(xs, order, r, c, m - 1);
      }
    }
  }

  /** The product of the entries a sample contributes to columns r and c
      of the design matrix is its power r + c. */
  lemma DesignTerm(xs: seq<real>, order: nat, r: nat, c: nat, i: nat)
    requires r <= order && c <= order && i < |xs|
    ensures Column(Design(xs, order), r)[i] * Column(Design(xs, order), c)[i] == Pow(xs[i], r + c)
  {
    var D := Design(xs, order);
    assert Column(D, r)[i] == Pow(xs[i], r) && Column(D, c)[i] == Pow(xs[i], c);
    PowAdd(xs[i], r, c);
  }

  lemma NormalEntry(xs: seq<real>, order: nat, r: nat, c: nat)
    requires r <= order && c <= order
    ensures NormalMatrix(xs, order)[r][c] == PowerSum(xs, r + c, |xs|)
  {
  }

  /** The normal matrix is a Hankel matrix: its entries are constant along
      every anti-diagonal r + c, which is what lets the fitter compute each
      power sum once. With r' = c and c' = r this is its symmetry. */
  lemma NormalMatrixIsHankel(xs: seq<real>, order: nat, r: nat, c: nat, r': nat, c': nat)
    requires r <= order && c <= order && r' <= order && c' <= order && r + c == r' + c'
    ensures NormalMatrix(xs, order)[r][c] == NormalMatrix(xs, order)[r'][c']
  {
    NormalEntry(xs, order, r, c);
    NormalEntry(xs, order, r', c');
  }

  /** The normal matrix is the Gram matrix X'X of the design matrix: entry
      (r, c) is the dot product of columns r and c of X. */
  lemma NormalMatrixIsGram(xs: seq<real>, order: nat, r: nat, c: nat)
    requires r <= order && c <= order
    ensures NormalMatrix(xs, order)[r][c]
         == Dot(Column(Design(xs, order), r), Column(Design(xs, order), c), 0, |xs|)
  {
    NormalEntry(xs, order, r, c);
    PowerSumIsDot(xs, order, r, c, |xs|);
  }

  lemma {:induction false} MomentSumIsDot(xs: seq<real>, ys: seq<real>, order: nat, j: nat, m: nat)
    requires j <= order && m <= |xs| && |ys| >= |xs|
    ensures MomentSum(xs, ys, j, m) == Dot(Column(Design(xs, order), j), ys, 0, m)
  {
    if m > 0 {
      MomentSumIsDot(xs, ys, order, j, m - 1);
      var u := Column(Design(xs, order), j);
      assert u[m - 1] == Pow(xs[m - 1], j);
      assert Dot(u, ys, 0, m) == Dot(u, ys, 0, m - 1) + u[m - 1] * ys[m - 1];
      WeightedIsProduct(ys[m - 1], xs[m - 1], j);
      assert Weighted(ys[m - 1], xs[m - 1], j) == u[m - 1] * ys[m - 1];
    }
  }

  /** The normal vector is X'y: entry j is the dot product of column j of
      the design matrix with the y-values. */
  lemma NormalVectorIsProjection(xs: seq<real>, ys: seq<real>, order: nat, j: nat)
    requires j <= order && |ys| >= |xs|
    ensures NormalVector(xs, ys, order)[j] == Dot(Column(Design(xs, order), j), ys, 0, |xs|)
  {
    MomentSumIsDot(xs, ys, order, j, |xs|);
  }

  /** The value c[0] + c[1] * x + ... + c[k-1] * x^(k-1) of the polynomial
      with coefficients c, constant term first, cut to its first k terms. */
  function PolyValue(c: seq<real>, x: real, k: nat): (v: real)
    requires k <= |c|
  {
    if k == 0 then 0.0 else PolyValue(c, x, k - 1) + c[k - 1] * Pow(x, k - 1)
  }

  /** Every sample lies exactly on the polynomial with coefficients c. */
  predicate Interpolates(c: seq<real>, xs: seq<real>, ys: seq<real>)
  {
    |ys| >= |xs| && forall i :: 0 <= i < |xs| ==> ys[i] == PolyValue(c, xs[i], |c|)
  }

  /** Row i of the design matrix times c is the polynomial's value at xs[i]. */
  lemma {:induction false} PolyValueIsDot(xs: seq<real>, order: nat, c: seq<real>, i: nat, k: nat)
    requires i < |xs| && k <= order + 1 && |c| == order + 1
    ensures Dot(Design(xs, order)[i], c, 0, k) == PolyValue(c, xs[i], k)
  {
    if k > 0 {
      PolyValueIsDot(xs, order, c, i, k - 1);
      assert Design(xs, order)[i][k - 1] == Pow(xs[i], k - 1);
    }
  }

  /** Samples that lie exactly on a polynomial of the fit's order make its
      coefficients a solution of the normal equations. */
  lemma ExactDataSolvesNormalEquations(xs: seq<real>, ys: seq<real>, order: nat, c: seq<real>)
    requires |c| == order + 1 && Interpolates(c, xs, ys)
    ensures MatVec(NormalMatrix(xs, order), c, order + 1) == NormalVector(xs, ys, order)
  {
    var n, m := order + 1, |xs|;
    var X, D := NormalMatrix(xs, order), Design(xs, order);
    forall i | 0 <= i < m
      ensures RowDots(D, c, n)[i] == ys[i]
    {
      PolyValueIsDot(xs, order, c, i, n);
    }
    forall r | 0 <= r < n
      ensures MatVec(X, c, n)[r] == NormalVector(xs, ys, order)[r]
    {
      var u := Column(D, r);
      forall b | 0 <= b < n
        ensures X[r][b] == Dot(u, Column(D, b), 0, m)
      {
        NormalMatrixIsGram(xs, order, r, b);
      }
      GramTimes(X, D, c, n, r, n);
      DotFrame(RowDots(D, c, n), u, ys, u, 0, m);
      DotSymmetric(ys, u, 0, m);
      NormalVectorIsProjection(xs, ys, order, r);
    }
  }

  /**
   * Fits a polynomial of the given order to the samples (xs[i], ys[i]).
   * `prev` is the previous contents of the output vector, which is resized
   * to order + 1 entries. Returns the coefficients, constant term first,
   * and LUPSolve's error code: 0 when the normal equations were solved, 1
   * when the normal matrix is degenerate, in which case the resized vector
   * is returned unchanged.
   */
  method PolyFit(prev: seq<real>, xs: seq<real>, ys: seq<real>, order: nat)
      returns (coef: array<real>, err: int)
    requires |ys| >= |xs|
    ensures fresh(coef) && coef.Length == order + 1
    ensures err == 0 || err == 1
    ensures err == 1 ==> coef[..] == Resized(prev, order + 1)
    ensures err == 1 ==> DecompositionStalls(NormalMatrix(xs, order), order + 1)
    ensures err == 0 ==> DecompositionCompletes(NormalMatrix(xs, order), order + 1)
    ensures err == 0 ==> MatVec(NormalMatrix(xs, order), coef[..], order + 1) == NormalVector(xs, ys, order)
    ensures order >= 1 && SameAbscissa(xs) ==> err == 1
    ensures |xs| == 0 ==> err == 1
    ensures err == 0 ==> forall z :: (|z| == order + 1 && MatVec(NormalMatrix(xs, order), z, order + 1)
                                       == NormalVector(xs, ys, order)) ==> z == coef[..]
    ensures err == 0 ==> forall c :: |c| == order + 1 && Interpolates(c, xs, ys) ==> coef[..] == c
  {
    var nCoef := order + 1;
    coef := new real[nCoef](k requires 0 <= k < nCoef => if k < |prev| then prev[k] else 0.0);
    assert coef[..] == Resized(prev, nCoef);
    var xx, xy := NormalEquations(xs, ys, order);
    ghost var X, v := xx[..], xy[..];
    assert v[..nCoef] == v && coef[..nCoef] == coef[..];
    var e, perm, done := LUPSolve(coef, xx, xy[..], nCoef);
    err := e;
    if order >= 1 && SameAbscissa(xs) {
      SameAbscissaDegenerate(xs, order);
    }
    if |xs| == 0 {
      assert xs == [];
      NoSamplesDegenerate(order);
    }
    ghost var c := coef[..];
    assert coef[..nCoef] == c;
    if err == 1 {
      assert Stalled(X, xx[..], perm, done, nCoef, Tol);
    } else {
      assert Completed(X, xx[..], perm, nCoef, Tol);
      assert MatVec(X, c, nCoef) == v;
      forall c0 | |c0| == nCoef && Interpolates(c0, xs, ys)
        ensures c0 == c
      {
        ExactDataSolvesNormalEquations(xs, ys, order, c0);
      }
    }
  }

  /** The construction of the normal equations (X'X) * coef = X'y: one pass
      over the samples fills the power sums, which then fill the matrix. */
  method NormalEquations(xs: seq<real>, ys: seq<real>, order: nat)
      returns (xx: array<seq<real>>, xy: array<real>)
    requires |ys| >= |xs|
    ensures fresh(xx) && fresh(xy)
    ensures xx[..] == NormalMatrix(xs, order) && xy[..] == NormalVector(xs, ys, order)
  {
    var nX := |xs|;
    var nCoef := order + 1;
    var nPower := nCoef + order;
    xx := new seq<real>[nCoef](_ => seq(nCoef, _ => 0.0));
    xy := new real[nCoef](_ => 0.0);
    var xxSum := new real[nPower](_ => 0.0);

    var i := 0;
    while i < nX
      invariant 0 <= i <= nX && IsSquare(xx[..], nCoef)
      invariant forall j :: 0 <= j < nPower ==> xxSum[j] == PowerSum(xs, j, i)
      invariant forall j :: 0 <= j < nCoef ==> xy[j] == MomentSum(xs, ys, j, i)
    {
      AccumulateSample(xs[i], ys[i], xy, xxSum, nCoef, nPower);
      i := i + 1;
    }

    FillNormalMatrix(xx, xxSum, nCoef);
    ghost var X := NormalMatrix(xs, order);
    forall r | 0 <= r < nCoef
      ensures xx[r] == X[r]
    {
      forall c | 0 <= c < nCoef
        ensures xx[r][c] == X[r][c]
      {
        NormalEntry(xs, order, r, c);
      }
    }
    assert xx[..] == X;
    assert xy[..] == NormalVector(xs, ys, order);
  }

  /** One sample's pass over the power ladder (the loop over j): every
      power sum gains x^j, and every y-weighted sum below nCoef gains y * x^j
      (Weighted, see WeightedIsProduct). */
  method AccumulateSample(x: real, y: real, xy: array<real>, xxSum: array<real>, nCoef: nat, nPower: nat)
    requires xy.Length == nCoef && xxSum.Length == nPower && nCoef <= nPower && xy != xxSum
    modifies xy, xxSum
    ensures forall j :: 0 <= j < nPower ==> xxSum[j] == old(xxSum[j]) + Pow(x, j)
    ensures forall j :: 0 <= j < nCoef ==> xy[j] == old(xy[j]) + Weighted(y, x, j)
  {
    var accumulatedPower := 1.0;
    var j := 0;
    while j < nPower
      invariant 0 <= j <= nPower && accumulatedPower == Pow(x, j)
      invariant forall t :: 0 <= t < j ==> xxSum[t] == old(xxSum[t]) + Pow(x, t)
      invariant forall t :: j <= t < nPower ==> xxSum[t] == old(xxSum[t])
      invariant forall t :: 0 <= t < j && t < nCoef ==> xy[t] == old(xy[t]) + Weighted(y, x, t)
      invariant forall t :: j <= t < nCoef ==> xy[t] == old(xy[t])
    {
      if j < nCoef {
        WeightedTerm(y, x, j, accumulatedPower);
        xy[j] := xy[j] + y * accumulatedPower;
      }
      xxSum[j] := xxSum[j] + accumulatedPower;
      PowStep(x, j, accumulatedPower);
      accumulatedPower := accumulatedPower * x;
      j := j + 1;
    }
  }

  /** The fill of the normal matrix (the loops over i and j): both XX[i][j]
      and XX[j][i] receive the power sum of exponent i + j. */
  method FillNormalMatrix(xx: array<seq<real>>, xxSum: array<real>, n: nat)
    requires xx.Length == n && IsSquare(xx[..], n) && 2 * n <= xxSum.Length + 1
    modifies xx
    ensures IsSquare(xx[..], n)
    ensures forall r, c :: 0 <= r < n && 0 <= c < n ==> xx[r][c] == xxSum[r + c]
  {
    var i := 0;
    while i < n
      invariant 0 <= i <= n && IsSquare(xx[..], n)
      invariant forall r, c :: 0 <= r < n && 0 <= c < n && (r < i || c < i) ==> xx[r][c] == xxSum[r + c]
    {
      var j := 0;
      while j < n
        invariant 0 <= j <= n && IsSquare(xx[..], n)
        invariant forall r, c :: 0 <= r < n && 0 <= c < n && (r < i || c < i || (r == i && c < j) || (c == i && r < j))
                    ==> xx[r][c] == xxSum[r + c]
      {
        xx[i] := xx[i][j := xxSum[i + j]];
        xx[j] := xx[j][i := xx[i][j]];
        j := j + 1;
      }
      i := i + 1;
    }
  }

  /** All samples share one abscissa (vacuously true of no samples). */
  predicate SameAbscissa(xs: seq<real>)
  {
    forall i :: 0 <= i < |xs| ==> xs[i] == xs[0]
  }

  lemma {:induction false} ConstantPowerSum(xs: seq<real>, a: real, j: nat, m: nat)
    requires m <= |xs| && forall i :: 0 <= i < |xs| ==> xs[i] == a
    ensures PowerSum(xs, j, m) == (m as real) * Pow(a, j)
  {
    if m > 0 {
      ConstantPowerSum(xs, a, j, m - 1);
    }
  }

  /** A dot product with a vector that vanishes past its first two entries. */
  lemma {:induction false} DotLeadingPair(u: Vector, z: Vector, hi: nat)
    requires 2 <= hi <= |u| && hi <= |z|
    requires forall k :: 2 <= k < hi ==> z[k] == 0.0
    ensures Dot(u, z, 0, hi) == u[0] * z[0] + u[1] * z[1]
  {
    if hi > 2 {
      DotLeadingPair(u, z, hi - 1);
    } else {
      assert Dot(u, z, 0, 1) == u[0] * z[0];
    }
  }

  lemma KernelTerm(m: real, q: real, a: real, q': real)
    requires q' == q * a
    ensures (m * q) * a + (m * q') * -1.0 == 0.0
  {
    assert (m * q) * a == m * q';
  }

  /** Row j of the normal matrix annihilates (a, -1, 0, ...). */
  lemma SameAbscissaRow(xs: seq<real>, order: nat, a: real, j: nat)
    requires order >= 1 && j <= order && forall i :: 0 <= i < |xs| ==> xs[i] == a
    ensures NormalMatrix(xs, order)[j][0] * a + NormalMatrix(xs, order)[j][1] * -1.0 == 0.0
  {
    NormalEntry(xs, order, j, 0);
    NormalEntry(xs, order, j, 1);
    ConstantPowerSum(xs, a, j, |xs|);
    ConstantPowerSum(xs, a, j + 1, |xs|);
    KernelTerm(|xs| as real, Pow(a, j), a, Pow(a, j + 1));
  }

  /**
   * Degenerate detection: when every sample has the same abscissa a and
   * the order is at least one, the polynomials 0 and a - x take the same
   * values at every sample, so the normal matrix maps (a, -1, 0, ...) and
   * the zero vector to the same image and no decomposition can complete.
   */
  lemma SameAbscissaDegenerate(xs: seq<real>, order: nat)
    requires order >= 1 && SameAbscissa(xs)
    ensures !DecompositionCompletes(NormalMatrix(xs, order), order + 1)
  {
    var n := order + 1;
    var X := NormalMatrix(xs, order);
    var a := if |xs| == 0 then 0.0 else xs[0];
    var z := seq(n, c requires 0 <= c < n => if c == 0 then a else if c == 1 then -1.0 else 0.0);
    var zero := Zero(n);
    forall j | 0 <= j < n
      ensures MatVec(X, z, n)[j] == MatVec(X, zero, n)[j]
    {
      DotLeadingPair(X[j], z, n);
      DotLeadingPair(X[j], zero, n);
      SameAbscissaRow(xs, order, a, j);
    }
    assert MatVec(X, z, n) == MatVec(X, zero, n);
    assert z[1] != zero[1];
    if DecompositionCompletes(X, n) {
      var M, p :| Completed(X, M, p, n, Tol);
      CompletedIsInjective(X, M, p, z, zero, n);
      assert false;
    }
  }

  /** Degenerate detection without samples: every power sum is empty, so
      the normal matrix is zero and its first pivot cannot clear the
      tolerance, whatever the order. */
  lemma NoSamplesDegenerate(order: nat)
    ensures !DecompositionCompletes(NormalMatrix([], order), order + 1)
  {
    var n := order + 1;
    var X := NormalMatrix([], order);
    forall r, c | 0 <= r < n && 0 <= c < n
      ensures X[r][c] == 0.0
    {
      NormalEntry([], order, r, c);
    }
    if DecompositionCompletes(X, n) {
      var M, p :| Completed(X, M, p, n, Tol);
      FactoredFirstRow(X, M, p, n, n, 0);
      assert false;
    }
  }

  /** Fitting a line through (1, 1), (1, 2), (1, 3): no slope can be
      determined, and the fitter reports the degenerate system. */
  method FitIdenticalAbscissae() returns (coef: array<real>, err: int)
    ensures err == 1 && coef[..] == [0.0, 0.0]
  {
    var xs := [1.0, 1.0, 1.0];
    assert SameAbscissa(xs);
    coef, err := PolyFit([], xs, [1.0, 2.0, 3.0], 1);
  }

  lemma LineNormalEquations()
    ensures NormalMatrix([0.0, 1.0, 2.0, 3.0], 1) == [[4.0, 6.0], [6.0, 14.0]]
    ensures NormalVector([0.0, 1.0, 2.0, 3.0], [1.0, 3.0, 5.0, 7.0], 1) == [16.0, 34.0]
  {
    var xs, ys := [0.0, 1.0, 2.0, 3.0], [1.0, 3.0, 5.0, 7.0];
    assert Pow(2.0, 2) == 4.0 && Pow(3.0, 2) == 9.0 && Pow(1.0, 2) == 1.0 && Pow(0.0, 2) == 0.0;
    assert PowerSum(xs, 0, 4) == 4.0;
    assert PowerSum(xs, 1, 4) == 6.0;
    assert PowerSum(xs, 2, 4) == 14.0;
    assert MomentSum(xs, ys, 0, 4) == 16.0;
    assert MomentSum(xs, ys, 1, 4) == 34.0;
    var X := NormalMatrix(xs, 1);
    assert X[0] == [4.0, 6.0];
    assert X[1] == [6.0, 14.0];
  }

  /** The only solution of the normal equations of the four samples of
      y = 1 + 2x. */
  lemma LineSolution(z: Vector)
    requires |z| == 2 && MatVec([[4.0, 6.0], [6.0, 14.0]], z, 2) == [16.0, 34.0]
    ensures z == [1.0, 2.0]
  {
    var A: Matrix := [[4.0, 6.0], [6.0, 14.0]];
    assert Dot(A[0], z, 0, 2) == 4.0 * z[0] + 6.0 * z[1];
    assert Dot(A[1], z, 0, 2) == 6.0 * z[0] + 14.0 * z[1];
    assert MatVec(A, z, 2)[0] == 16.0 && MatVec(A, z, 2)[1] == 34.0;
  }

  lemma PermutationOfTwo(p: seq<nat>)
    requires IsPermutation(p, 2)
    ensures p == [0, 1] || p == [1, 0]
  {
    assert p[0] < 2 && p[1] < 2 && p[0] != p[1];
  }

  /** Partial pivoting never stalls on the normal matrix of the four
      samples of y = 1 + 2x. */
  lemma LineNeverStalls()
    ensures !DecompositionStalls([[4.0, 6.0], [6.0, 14.0]], 2)
  {
    var A: Matrix := [[4.0, 6.0], [6.0, 14.0]];
    if DecompositionStalls(A, 2) {
      var M, p, s :| Stalled(A, M, p, s, 2, Tol);
      PermutationOfTwo(p);
      FactoredFirstRow(A, M, p, s, 2, 0);
      if s == 0 {
        assert false;
      } else {
        FactoredTwoByTwo(A, M, p);
        assert false;
      }
    }
  }

  /** Fitting a line to four samples of y = 1 + 2x recovers the
      coefficients 1 and 2. */
  method FitLine() returns (coef: array<real>, err: int)
    ensures err == 0 && coef[..] == [1.0, 2.0]
  {
    LineNormalEquations();
    LineNeverStalls();
    coef, err := PolyFit([], [0.0, 1.0, 2.0, 3.0], [1.0, 3.0, 5.0, 7.0], 1);
    LineSolution(coef[..]);
  }
}
