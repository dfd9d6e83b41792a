# PolyFit in Dafny

A model of `PolyFit.cpp`, a least-squares polynomial fitter. It has three
parts:

- **LUPDecompose** does in-place LU decomposition with partial pivoting
  (Doolittle variant). It writes the row permutation into `P[0..N-1]` and
  `N` plus the number of row exchanges into `P[N]`. It returns 0 when a
  pivot column is degenerate and 1 when done.
- **LUPSolve** decomposes with the fixed tolerance 1e-12. It then runs
  forward substitution against `b[P[i]]` and back substitution. It returns
  0 on success and 1 on degeneracy.
- **polyFit** makes one pass over the samples. That pass gathers the power
  sums Σ x^j and the y-weighted sums Σ y·x^j. It then fills the Hankel
  normal matrix `XX[i][j] = xxSum[i+j]` and hands `XX · c = XY` to
  LUPSolve.

Representation choices:

- `double` is modelled by `real`, so every identity is exact.
- `fabs` is `Abs`, and the tolerance 1e-12 is `Tol = 1/10^12`.
- A matrix is an `array<seq<real>>`, an outer vector of rows updated in
  place. A row swap exchanges two elements. An element update replaces one
  entry of a row.
- `P` is an `array<nat>` of length N+1 and `x` is an `array<real>`.

Files:

| file | module | contents |
|---|---|---|
| `linalg.dfy` | `LinearAlgebra` | vectors, square matrices, partial dot products, matrix products, and their algebra |
| `perm.dfy` | `Permutations` | permutations as index vectors, swaps, sequences of exchanges |
| `factor.dfy` | `Factorization` | the combined L/U storage, the factorisation invariant `P·A = L·U` after s elimination steps, and why a swap or an elimination step keeps it |
| `substitution.dfy` | `Substitution` | the triangular systems solved by the two substitution loops, correctness, uniqueness |
| `solver.dfy` | `LinearSolver` | the methods `LUPDecompose` and `LUPSolve` and their loops |
| `polyfit.dfy` | `PolynomialFit` | the method `PolyFit`, its accumulation and fill loops, the closed forms of the normal equations, two worked scenarios |

Three predicates describe the decomposition's state:

- `Factored(A, M, p, s, n)` states `MatMul(Lower(M, s, n), Upper(M, s, n), n) == PermuteRows(A, p)`. Here `Lower` is the unit lower triangle of the multipliers stored in the first s columns. `Upper` is the upper triangle of the finished rows followed by the not yet eliminated block.
- `Completed` holds after all n steps. The pivots have magnitude at least Tol and the multipliers have magnitude at most 1.
- `Stalled` holds when the decomposition stops at column s. The first s pivots have magnitude at least Tol and their multipliers have magnitude at most 1, as partial pivoting guarantees. All candidate pivots of column s are below Tol.

## Model

| member | source | states |
|---|---|---|
| LinearAlgebra.Abs | PolyFit.cpp:26 | `fabs` is nonnegative and equals v or -v |
| LinearAlgebra.GramTimes | PolyFit.cpp:123-124 | for a Gram matrix G = D'D, row r of G times c equals column r of D against D·c, that is (D'D)·c = D'(D·c) |
| LinearAlgebra.MatVecOfProduct | PolyFit.cpp:6-9 | (A·B)·x = A·(B·x), which turns P·A = L·U into a statement about solutions |
| Permutations.IdentityIsPermutation | PolyFit.cpp:17-18 | the initial `P[i] = i` is a permutation of 0..N-1 |
| Permutations.SwapIsPermutation | PolyFit.cpp:34-38 | exchanging `P[i]` and `P[imax]` keeps a permutation |
| Permutations.ApplySwapsIsPermutation | PolyFit.cpp:17-38 | any sequence of exchanges applied to the identity is a permutation |
| Permutations.LeadingSwap | PolyFit.cpp:34-41 | in an ascending exchange list, the first exchange (i, j) puts the old entry j at position i for good and leaves the earlier positions alone |
| Permutations.AscendingSwapsUnique | PolyFit.cpp:34-41 | starting from distinct entries, two ascending exchange lists that reach the same arrangement are equal |
| Factorization.Eliminate | PolyFit.cpp:44-50 | elimination step i changes only entries (j, k) with j > i and k >= i |
| Factorization.ProductEntry | PolyFit.cpp:6-9 | entry (r, c) of Lower·Upper is the truncated dot product read off the combined storage alone |
| Factorization.FactoredInitially | PolyFit.cpp:17-18 | before any step, the identity permutation and A itself satisfy P·A = L·U |
| Factorization.SwapStep | PolyFit.cpp:34-41 | exchanging two rows not yet eliminated, together with their P entries, keeps P·A = L·U |
| Factorization.EliminationStep | PolyFit.cpp:44-50 | eliminating below a nonzero pivot advances P·A = L·U by one column |
| Factorization.FactoredTwoByTwo | PolyFit.cpp:6-9 | after one step on a 2x2 matrix, the product of the two pivots is det(P·A) |
| Substitution.LowerSolves | PolyFit.cpp:67-74 | after forward substitution, L·y = P·b |
| Substitution.UpperSolves | PolyFit.cpp:76-82 | after back substitution, U·x = y |
| Substitution.SolveCorrect | PolyFit.cpp:60-90 | given P·A = L·U, L·y = P·b and U·x = y, we get A·x = b |
| Substitution.SolutionUnique | PolyFit.cpp:60-90 | with nonzero pivots, A·x = A·x' forces x = x' |
| Substitution.PivotDivision | PolyFit.cpp:80 | dividing by the pivot makes row i of U·x equal y[i] |
| LinearSolver.PivotSearch | PolyFit.cpp:22-30 | `maxA = |A[imax][i]|` is the largest magnitude in column i from row i on, and every earlier row is strictly smaller, so imax is the first maximum |
| LinearSolver.MultiplierBound | PolyFit.cpp:46 | a multiplier whose pivot is the column maximum has magnitude at most 1 |
| LinearSolver.SwapKeepsBounds | PolyFit.cpp:34-42 | the exchange moves the column maximum into row i and keeps the finished pivots and multipliers |
| LinearSolver.EliminationKeepsBounds | PolyFit.cpp:44-50 | elimination adds pivot i, of magnitude at least Tol, and multipliers of magnitude at most 1 |
| LinearSolver.StartProgress | PolyFit.cpp:17-18 | the initial state is step 0 of the decomposition, with no exchanges |
| LinearSolver.ExchangeProgress | PolyFit.cpp:34-42 | the exchange, recorded as one more transposition, keeps the invariant of step i |
| LinearSolver.EliminationProgress | PolyFit.cpp:44-50 | eliminating below a maximal pivot of magnitude at least Tol completes step i |
| LinearSolver.LUPDecompose | PolyFit.cpp:12-53 | returns 0 or 1. It returns 1 exactly when all N columns are done, including N = 0. `P[0..N-1]` is a permutation in every case. `P[N]` is N plus the length of the exchange list `swaps`, whose product is `P[0..N-1]`, whose first rows strictly increase and lie below `done`. That list is unique (LinearSolver.ExchangesDetermined), so `P[N]` is fixed by `P[0..N-1]`. The first `done` columns satisfy P·A_orig = L·U with pivots at least Tol and multipliers at most 1. On 0, every candidate pivot of column `done` is below Tol |
| LinearSolver.DecomposeColumn | PolyFit.cpp:20-51 | one pass of the outer loop. When the column maximum is below Tol, nothing changes. Otherwise `pivotRow` is the first row from i on that holds the column maximum, and it is at least Tol. The new matrix is the old one with rows i and `pivotRow` exchanged and then eliminated below row i. `P[0..N-1]` has entries i and `pivotRow` exchanged. The exchange list grows by (i, pivotRow) exactly when the two differ. The invariant advances to column i+1 |
| LinearSolver.ExchangesDetermined | PolyFit.cpp:8-9 | two decomposition states with the same permutation and ascending exchange lists have the same list, so `P[N] - N`, the number of exchanges, is a function of `P[0..N-1]` |
| LinearSolver.ExchangeRows | PolyFit.cpp:34-42 | rows i and imax of A and entries i and imax of P trade places, and `P[N]` goes up by one |
| LinearSolver.EliminateBelow | PolyFit.cpp:44-50 | the new matrix is `Eliminate(old A, i)` |
| LinearSolver.EliminateRowBelow | PolyFit.cpp:46-49 | row j gets its multiplier in column i and loses that multiple of the pivot row in the later columns. Every other row is unchanged |
| LinearSolver.LUPSolve | PolyFit.cpp:60-90 | on 1, x is untouched and the decomposition has stalled after pivots that were column maxima. On 0, the decomposition completed, A_orig·x = b, and x is the only solution. Entries of x past N are never written |
| LinearSolver.ForwardSubstitute | PolyFit.cpp:67-74 | x[0..N-1] solves the unit lower system with right-hand side b[P[i]] |
| LinearSolver.BackSubstitute | PolyFit.cpp:76-82 | the new x[0..N-1] solves the upper system whose right-hand side is the old x |
| LinearSolver.SubtractProducts | PolyFit.cpp:71-72 | the inner k-loop subtracts the partial dot product of the row with x from x[i], and changes nothing else |
| LinearSolver.CompletedIsInjective | PolyFit.cpp:60-90 | a completed decomposition certifies that distinct vectors have distinct images under A |
| PolynomialFit.WeightedIsProduct | PolyFit.cpp:139 | y times the running power after j steps is y·x^j |
| PolynomialFit.PowAdd | PolyFit.cpp:149 | x^(a+b) = x^a · x^b, so the sum of exponent r+c is the inner product of columns r and c |
| PolynomialFit.NormalMatrixIsHankel | PolyFit.cpp:145-152 | XX[r][c] depends only on r+c. Taking r' = c and c' = r gives XX[r][c] = XX[c][r] |
| PolynomialFit.NormalMatrixIsGram | PolyFit.cpp:123-124 | XX = D'·D for the design matrix D with D[i][j] = x_i^j |
| PolynomialFit.NormalVectorIsProjection | PolyFit.cpp:123-124 | XY = D'·y |
| PolynomialFit.PolyValueIsDot | PolyFit.cpp:105-107 | row i of the design matrix times c is the polynomial c[0] + c[1]·x + ... evaluated at x_i |
| PolynomialFit.ExactDataSolvesNormalEquations | PolyFit.cpp:123-124 | when every sample lies exactly on a polynomial c of the fit's order, c solves XX·c = XY |
| PolynomialFit.AccumulateSample | PolyFit.cpp:134-143 | one sample adds x^j to every `xxSum[j]` with j < nPower, and y·x^j to every `XY[j]` with j < nCoef |
| PolynomialFit.FillNormalMatrix | PolyFit.cpp:145-152 | afterwards `XX[r][c] = xxSum[r+c]` for all r, c < nCoef |
| PolynomialFit.NormalEquations | PolyFit.cpp:125-152 | `xxSum[j] = Σ_i x_i^j` for j < 2·order+1, `XY[j] = Σ_i y_i·x_i^j` for j <= order, and XX is the Hankel matrix of the power sums |
| PolynomialFit.PolyFit | PolyFit.cpp:112-157 | the output has length order+1 and the error code is LUPSolve's, 0 or 1. On 1, the output is the resized input and the decomposition of XX stalled. On 0, XX·c = XY and c is its only solution, so samples that lie exactly on a polynomial of the fit's order give back its coefficients. When all samples share one x and order >= 1, or when there are no samples, the code is 1. The output array is fresh |
| PolynomialFit.SameAbscissaDegenerate | PolyFit.cpp:154-156 | when all samples share one x and order >= 1, the normal matrix has a nonzero null vector, so no decomposition of it completes |
| PolynomialFit.NoSamplesDegenerate | PolyFit.cpp:154-156 | with no samples the normal matrix is zero, so no decomposition of it completes, at any order |
| PolynomialFit.FitIdenticalAbscissae | PolyFit.cpp:112-157 | fitting a line to x = [1,1,1], y = [1,2,3] returns code 1 and the zero-filled vector |
| PolynomialFit.LineNormalEquations | PolyFit.cpp:132-152 | for x = [0,1,2,3] and y = [1,3,5,7] at order 1, XX = [[4,6],[6,14]] and XY = [16,34] |
| PolynomialFit.LineNeverStalls | PolyFit.cpp:20-32 | partial pivoting cannot stall on [[4,6],[6,14]] with tolerance 1e-12 |
| PolynomialFit.LineSolution | PolyFit.cpp:154 | [1, 2] is the only solution of those normal equations |
| PolynomialFit.FitLine | PolyFit.cpp:112-157 | fitting a line to four samples of y = 1 + 2x returns code 0 and the coefficients [1, 2] |

## Left out

- Floating point: rounding, overflow, NaN and the conditioning of the normal equations. `double` is `real`. Recovery of noisy data within a tolerance is not stated, by design. What is proved is exact recovery: on code 0, samples that lie exactly on a polynomial of the fit's order give back its coefficients (PolynomialFit.PolyFit with PolynomialFit.ExactDataSolvesNormalEquations).
- The least-squares optimality stated in the comment before polyFit is not proved. The model proves only that the result solves the normal equations D'D·c = D'y.
- The general degeneracy claim covers fits whose order is at least the number of distinct x values. Two cases are proved: one distinct x value with order >= 1 (PolynomialFit.SameAbscissaDegenerate), and no samples at any order (PolynomialFit.NoSamplesDegenerate). The general case needs a vanishing polynomial built from all the distinct values.
- Repeated fits with the same inputs give the same outputs, because the methods are deterministic code. The contracts fix the coefficients once the error code is known. Under pivot ties they do not fix the error code itself (see the bullet on ties below).
- `PolyFit.hpp` is not part of this model. Only the three signatures are needed.
- The "prints message" note in the same comment. The code prints nothing.
- Unsigned integer widths. Sizes and indices are `nat`, so in the model `P[N]++`, `nCoef = inPolOrder + 1` and `nPower = 2·order + 1` cannot wrap. In the source, `inPolOrder = UINT_MAX` makes `nCoef` wrap to 0 (PolyFit.cpp:118). That case is not modelled.
- LinearSolver.LUPDecompose: requires `tol > 0`. With `tol <= 0` the C code may divide by a zero pivot. LUPSolve always passes 1e-12.
- LinearSolver.LUPDecompose: the sizes the source leaves unchecked are preconditions: `|P| == N+1`, `|A| == N` and `|A[r]| == N`.
- LinearSolver.LUPSolve: `|x| >= N` and `|b| >= N` are preconditions.
- LinearSolver.LUPSolve: `b` is a value (`seq<real>`), so the model cannot express a call whose `b` is the same vector as `x`, such as `LUPSolve(x, A, x, N)`. The source allows it because `b` is a const reference, and forward substitution at PolyFit.cpp:69 would then read entries of `b` that have already been overwritten. polyFit never makes such a call.
- PolynomialFit.PolyFit: `|inY| >= |inX|` is a precondition. The source reads `inY[i]` for every `i < nX`.
- PolynomialFit.PolyFit: `outPolCoef` is an in/out reference in the source. Here it is modelled as its previous contents `prev` and a fresh returned array with the `resize(nCoef, 0.0)` semantics.
- Ties in the pivot search: when two rows of column i share the largest magnitude, the strict `>` of PolyFit.cpp:26 keeps the first. LinearSolver.PivotSearch states this, but `Completed` and `Stalled` do not record which maximal row was taken at each step. So LinearSolver.LUPSolve and PolynomialFit.PolyFit say that some partial-pivoting run stalls or completes, not that it is the run with first-maximum tie-breaking.
- The sign of the permutation: the model proves that `P[N] - N` is the length of the unique ascending list of exchanges whose product is P, which is the list the loop performs. It does not prove that every list of transpositions with product P has the same parity, so it does not derive det(P) = (-1)^S.
- The ghost results of LUPDecompose (`done`, `swaps`), DecomposeColumn (`pivotRow`, the source's local `imax`) and LUPSolve (`perm`, `done`) exist only to state the contracts. The C functions return only the code.
