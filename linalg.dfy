/**
 * Dense real vectors and square matrices, the mathematical vocabulary in
 * which the solver and the fitter are specified. `double` is modelled by
 * `real`, so every identity here is exact.
 */
module LinearAlgebra {

  type Vector = seq<real>
  type Matrix = seq<seq<real>>

  /** The magnitude `fabs` computes. */
  function Abs(v: real): (r: real)
    ensures r >= 0.0 && (r == v || r == -v)
  {
    if v < 0.0 then -v else v
  }

  function Min(a: nat, b: nat): (m: nat)
  {
    if a < b then a else b
  }

  /** `M` has `n` rows of `n` entries each. */
  predicate IsSquare(M: Matrix, n: nat)
  {
    |M| == n && forall r :: 0 <= r < n ==> |M[r]| == n
  }

  /** The partial dot product: the sum of u[k] * v[k] for lo <= k < hi. */
  function Dot(u: Vector, v: Vector, lo: nat, hi: nat): (d: real)
    requires hi <= |u| && hi <= |v|
    decreases hi
  {
    if hi <= lo then 0.0 else Dot(u, v, lo, hi - 1) + u[hi - 1] * v[hi - 1]
  }

  function Column(M: Matrix, c: nat): (col: Vector)
    requires forall r :: 0 <= r < |M| ==> c < |M[r]|
  {
    seq(|M|, r requires 0 <= r < |M| => M[r][c])
  }

  function MatMul(A: Matrix, B: Matrix, n: nat): (C: Matrix)
    requires IsSquare(A, n) && IsSquare(B, n)
    ensures IsSquare(C, n)
  {
    seq(n, r requires 0 <= r < n =>
      seq(n, c requires 0 <= c < n => Dot(A[r], Column(B, c), 0, n)))
  }

  function MatVec(A: Matrix, x: Vector, n: nat): (y: Vector)
    requires IsSquare(A, n) && |x| == n
    ensures |y| == n
  {
    seq(n, r requires 0 <= r < n => Dot(A[r], x, 0, n))
  }

  /** Row i of the result is row p[i] of `A`: the product P * A for the
      permutation matrix that has a one in column p[i] of row i. */
  function PermuteRows<T>(A: seq<T>, p: seq<nat>): (B: seq<T>)
    requires forall i :: 0 <= i < |p| ==> p[i] < |A|
    ensures |B| == |p|
  {
    seq(|p|, i requires 0 <= i < |p| => A[p[i]])
  }

  function Add(u: Vector, v: Vector): (w: Vector)
    requires |u| == |v|
  {
    seq(|u|, i requires 0 <= i < |u| => u[i] + v[i])
  }

  function Scale(a: real, u: Vector): (w: Vector)
  {
    seq(|u|, i requires 0 <= i < |u| => a * u[i])
  }

  function Zero(n: nat): (z: Vector)
  {
    seq(n, _ => 0.0)
  }

  /** The linear combination l[0] * U[0] + ... + l[b-1] * U[b-1] of rows of `U`. */
  function Combination(l: Vector, U: Matrix, n: nat, b: nat): (v: Vector)
    requires IsSquare(U, n) && b <= n && b <= |l|
    ensures |v| == n
  {
    if b == 0 then Zero(n) else Add(Combination(l, U, n, b - 1), Scale(l[b - 1], U[b - 1]))
  }

  lemma {:induction false} DotZero(x: Vector, n: nat)
    requires n <= |x|
    ensures Dot(Zero(n), x, 0, n) == 0.0
  {
    DotZeroPrefix(Zero(n), x, n);
  }

  lemma {:induction false} DotZeroPrefix(z: Vector, x: Vector, hi: nat)
    requires hi <= |z| && hi <= |x|
    requires forall k :: 0 <= k < hi ==> z[k] == 0.0
    ensures Dot(z, x, 0, hi) == 0.0
  {
    if hi > 0 {
      DotZeroPrefix(z, x, hi - 1);
    }
  }

  /** The dot product reads only the entries in [lo, hi). */
  lemma {:induction false} DotFrame(u: Vector, v: Vector, u': Vector, v': Vector, lo: nat, hi: nat)
    requires hi <= |u| && hi <= |v| && hi <= |u'| && hi <= |v'|
    requires forall k :: lo <= k < hi ==> u[k] == u'[k] && v[k] == v'[k]
    ensures Dot(u, v, lo, hi) == Dot(u', v', lo, hi)
  {
    if lo < hi {
      DotFrame(u, v, u', v', lo, hi - 1);
    }
  }

  lemma {:induction false} DotSymmetric(u: Vector, v: Vector, lo: nat, hi: nat)
    requires hi <= |u| && hi <= |v|
    ensures Dot(u, v, lo, hi) == Dot(v, u, lo, hi)
  {
    if lo < hi {
      DotSymmetric(u, v, lo, hi - 1);
    }
  }

  /** Dot products are linear in their first argument: if f = f' + q * w
      entrywise, then f . u = f' . u + q * (w . u). */
  lemma {:induction false} DotLinear(f: Vector, f': Vector, w: Vector, u: Vector, q: real, hi: nat)
    requires hi <= |f| && hi <= |f'| && hi <= |w| && hi <= |u|
    requires forall i :: 0 <= i < hi ==> f[i] == f'[i] + q * w[i]
    ensures Dot(f, u, 0, hi) == Dot(f', u, 0, hi) + q * Dot(w, u, 0, hi)
  {
    if hi > 0 {
      DotLinear(f, f', w, u, q, hi - 1);
      var k := hi - 1;
      assert f[k] * u[k] == f'[k] * u[k] + q * (w[k] * u[k]);
    }
  }

  /** The vector of partial products D[i] . c over the first k columns, one
      entry per row of D. */
  function RowDots(D: Matrix, c: Vector, k: nat): (y: Vector)
    requires k <= |c| && forall i :: 0 <= i < |D| ==> k <= |D[i]|
    ensures |y| == |D|
  {
    seq(|D|, i requires 0 <= i < |D| => Dot(D[i], c, 0, k))
  }

  /** For the Gram matrix G = D'D: row r of G times the first k entries of
      c equals column r of D against D times those entries, that is,
      (D'D) c == D'(D c) entrywise. */
  lemma {:induction false} GramTimes(G: Matrix, D: Matrix, c: Vector, n: nat, r: nat, k: nat)
    requires IsSquare(G, n) && |c| == n && r < n && k <= n
    requires forall i :: 0 <= i < |D| ==> |D[i]| == n
    requires forall b :: 0 <= b < n ==> G[r][b] == Dot(Column(D, r), Column(D, b), 0, |D|)
    ensures Dot(G[r], c, 0, k) == Dot(RowDots(D, c, k), Column(D, r), 0, |D|)
  {
    if k == 0 {
      assert RowDots(D, c, 0) == Zero(|D|);
      DotZero(Column(D, r), |D|);
    } else {
      GramTimes(G, D, c, n, r, k - 1);
      GramTimesStep(G, D, c, n, r, k);
    }
  }

  /** The inductive step of GramTimes: column k-1 adds the same amount to
      both sides. */
  lemma GramTimesStep(G: Matrix, D: Matrix, c: Vector, n: nat, r: nat, k: nat)
    requires IsSquare(G, n) && |c| == n && r < n && 0 < k <= n
    requires forall i :: 0 <= i < |D| ==> |D[i]| == n
    requires G[r][k - 1] == Dot(Column(D, r), Column(D, k - 1), 0, |D|)
    requires Dot(G[r], c, 0, k - 1) == Dot(RowDots(D, c, k - 1), Column(D, r), 0, |D|)
    ensures Dot(G[r], c, 0, k) == Dot(RowDots(D, c, k), Column(D, r), 0, |D|)
  {
    var u, w, q := Column(D, r), Column(D, k - 1), c[k - 1];
    RowDotsStep(D, c, n, k);
    var g := G[r][k - 1];
    assert Dot(G[r], c, 0, k) == Dot(G[r], c, 0, k - 1) + g * q;
    assert g == Dot(w, u, 0, |D|) by {
      DotSymmetric(u, w, 0, |D|);
    }
    DotLinear(RowDots(D, c, k), RowDots(D, c, k - 1), w, u, q, |D|);
    CommutedSum(Dot(G[r], c, 0, k), Dot(G[r], c, 0, k - 1),
                Dot(RowDots(D, c, k), u, 0, |D|), Dot(RowDots(D, c, k - 1), u, 0, |D|), g, q);
  }

  /** Taking one more column into RowDots adds c[k-1] times column k-1. */
  lemma RowDotsStep(D: Matrix, c: Vector, n: nat, k: nat)
    requires |c| == n && 0 < k <= n
    requires forall i :: 0 <= i < |D| ==> |D[i]| == n
    ensures forall i :: 0 <= i < |D| ==>
      RowDots(D, c, k)[i] == RowDots(D, c, k - 1)[i] + c[k - 1] * Column(D, k - 1)[i]
  {
  }

  lemma CommutedSum(a: real, a': real, b: real, b': real, g: real, q: real)
    requires a == a' + g * q && b == b' + q * g && a' == b'
    ensures a == b
  {
  }

  /** Splitting off the lowest term of a partial dot product. */
  lemma {:induction false} DotSplitLow(u: Vector, v: Vector, lo: nat, hi: nat)
    requires lo < hi <= |u| && hi <= |v|
    ensures Dot(u, v, lo, hi) == u[lo] * v[lo] + Dot(u, v, lo + 1, hi)
  {
    if lo + 1 < hi {
      DotSplitLow(u, v, lo, hi - 1);
    }
  }

  lemma {:induction false} DotAdd(u: Vector, v: Vector, x: Vector, hi: nat)
    requires |u| == |v| && hi <= |u| && hi <= |x|
    ensures Dot(Add(u, v), x, 0, hi) == Dot(u, x, 0, hi) + Dot(v, x, 0, hi)
  {
    if hi > 0 {
      DotAdd(u, v, x, hi - 1);
      var k := hi - 1;
      assert Add(u, v)[k] * x[k] == u[k] * x[k] + v[k] * x[k];
    }
  }

  lemma {:induction false} DotScale(a: real, u: Vector, x: Vector, hi: nat)
    requires hi <= |u| && hi <= |x|
    ensures Dot(Scale(a, u), x, 0, hi) == a * Dot(u, x, 0, hi)
  {
    if hi > 0 {
      DotScale(a, u, x, hi - 1);
      var k := hi - 1;
      assert Scale(a, u)[k] * x[k] == a * (u[k] * x[k]);
    }
  }

  /** Entry c of a row combination is the dot product of the coefficients with column c. */
  lemma {:induction false} CombinationEntry(l: Vector, U: Matrix, n: nat, b: nat, c: nat)
    requires IsSquare(U, n) && b <= n && b <= |l| && c < n
    ensures Combination(l, U, n, b)[c] == Dot(l, Column(U, c), 0, b)
  {
    if b > 0 {
      CombinationEntry(l, U, n, b - 1, c);
    }
  }

  /** Multiplying a row combination by x combines the rows' products with x. */
  lemma {:induction false} DotCombination(l: Vector, U: Matrix, x: Vector, n: nat, b: nat)
    requires IsSquare(U, n) && b <= n && b <= |l| && |x| == n
    ensures Dot(Combination(l, U, n, b), x, 0, n) == Dot(l, MatVec(U, x, n), 0, b)
  {
    if b == 0 {
      DotZero(x, n);
    } else {
      var prev := Combination(l, U, n, b - 1);
      DotCombination(l, U, x, n, b - 1);
      DotAdd(prev, Scale(l[b - 1], U[b - 1]), x, n);
      DotScale(l[b - 1], U[b - 1], x, n);
    }
  }

  /** Associativity of the matrix-vector product: (A * B) * x == A * (B * x). */
  lemma MatVecOfProduct(A: Matrix, B: Matrix, x: Vector, n: nat)
    requires IsSquare(A, n) && IsSquare(B, n) && |x| == n
    ensures MatVec(MatMul(A, B, n), x, n) == MatVec(A, MatVec(B, x, n), n)
  {
    var AB := MatMul(A, B, n);
    forall r | 0 <= r < n
      ensures MatVec(AB, x, n)[r] == MatVec(A, MatVec(B, x, n), n)[r]
    {
      forall c | 0 <= c < n
        ensures AB[r][c] == Combination(A[r], B, n, n)[c]
      {
        CombinationEntry(A[r], B, n, n, c);
      }
      assert AB[r] == Combination(A[r], B, n, n);
      DotCombination(A[r], B, x, n, n);
    }
  }
}
