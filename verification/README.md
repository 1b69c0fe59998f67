# Numerical kernels of the network-flow and air-quality analyses

The project has two small numerical cores inside GUI classes, and this model covers both.

- **Polynomial interpolation of air-quality readings** (`aqi_analysis_gui.py`).
  - The Newton divided-difference table.
  - Its evaluation by a running product.
  - Neville's tableau.
  - The two reference data sets, five days of AQI readings and a three-day subset, each interpolated at day 2.5.
- **Solving the flow system of a four-node network** (`network_flow_gui.py`).
  - Gaussian elimination with partial pivoting, then back-substitution.
  - The Jacobi and Gauss-Seidel iterations, with their relative-change stopping test and iteration cap.
  - The truncation rule that inverts only singular values above 1e-10, and the SVD solution built from it.
  - The residual norm reported for every method.
  - The reference matrix and right-hand side.

All arithmetic is exact: `real`, not IEEE doubles.

Modules, one file each:

- `Vectors` (`vectors.dfy`): dot products over index ranges, `MatVec`, `Sub`, squared norms, transpose.
- `Interpolation` (`interpolation.dfy`): the divided differences and the Neville cell as recursive reference definitions.
  - `newton_divided_diff`, `newton_interpolation` and `neville_interpolation` as methods with loop invariants.
  - The agreement of Newton and Neville, proved by joint induction on the width of the block of nodes.
- `InterpolationScenarios` (`interpolation_scenarios.dfy`): the two AQI data sets and their exact estimates.
- `GaussElimination` (`gauss_elimination.dfy`):
  - The elimination step as a function over `[A | b]`.
  - The loops of `gauss_elimination` as methods refining it.
  - Back-substitution.
  - The solution-set argument: row swaps and row subtractions keep the solutions of the system.
- `IterativeSolvers` (`iterative_solvers.dfy`): Jacobi and Gauss-Seidel sweeps, the iterate sequence, the stopping test on squared norms, and the shared iteration loop.
- `SvdTruncation` (`svd_truncation.dfy`): `s_inv` and the solution `Vh^T (s_inv * (U^T b))`.
  - The factors are inputs, and their orthonormality is stated as a hypothesis where it is used.
- `Residuals` (`residual.dfy`): the squared residual norm.
- `NetworkScenario` (`network_scenario.dfy`): the reference network.
  - Its elimination pass by pass.
  - The solution (37, 27, 12, 0).
  - The first Jacobi and Gauss-Seidel iterates.

Facts of the code that the model follows:

- On the three-day subset at day 2.5, Newton's and Neville's routines give exactly 78.25.
- Elimination skips a pivot only when it is exactly zero (`!= 0`, line 119). Back-substitution skips a row when the magnitude of its diagonal is below 1e-10 (line 125).
- Repeated interpolation nodes are not rejected; the code divides by zero. The model states distinct nodes as a precondition rather than modelling an error.

## Model

| member | source | states |
|---|---|---|
| Interpolation.DifferencePass | aqi_analysis_gui.py:64-65 | one pass j of the table keeps the entries before j and keeps the length |
| Interpolation.NewtonDividedDiff | aqi_analysis_gui.py:60-66 | the table has as many entries as y; entry k is the divided difference f[x_0..x_k]; entry 0 is y[0]; entry 1 times (x[1] - x[0]) is y[1] - y[0] |
| Interpolation.NodeProductAtNode | aqi_analysis_gui.py:72-75 | the running product is 0 once t has passed a node equal to t |
| Interpolation.NewtonInterpolation | aqi_analysis_gui.py:68-76 | the running-product loop returns the Newton sum of the coefficients; it returns coef[0] when there is one coefficient or when t is the first node |
| Interpolation.NewtonSumIsNewtonForm | aqi_analysis_gui.py:68-76 | with the divided differences as coefficients, the loop's sum is the Newton form of the nodes |
| Interpolation.NevilleInterpolation | aqi_analysis_gui.py:78-87 | column 0 of the tableau is y; cells with i + j >= n keep their 0; every other cell is the value of the interpolant of nodes i..i+j; the result is the top-right cell and equals y[k] when t == x[k] |
| Interpolation.StartTableau | aqi_analysis_gui.py:81-82 | an n by n tableau holding y in column 0 and 0 everywhere else |
| Interpolation.NevilleIsNewton | aqi_analysis_gui.py:83-86 | each tableau cell equals the Newton form of its block of nodes, built from the left end and from the right end |
| Interpolation.NevilleAtNode | aqi_analysis_gui.py:83-87 | at t == x[k], every cell whose block of nodes contains k equals y[k] |
| Interpolation.NewtonAgreesWithNeville | aqi_analysis_gui.py:60-87 | for every t, Newton's evaluation of the divided-difference table equals Neville's result |
| Interpolation.TwoNodesLinear | aqi_analysis_gui.py:64-86 | with two nodes, coef[1] is the slope, and both methods give y0 + (t - x0) * slope |
| Interpolation.Interpolate | aqi_analysis_gui.py:100-103 | running table, Newton and Neville on one data set gives equal values, and the sample itself at a node |
| InterpolationScenarios.SubsetCoefficients | aqi_analysis_gui.py:18-19 | the three-day table is 80, -2, 3 |
| InterpolationScenarios.SubsetEstimate | aqi_analysis_gui.py:18-25 | both methods estimate 78.25 for day 2.5 from days 2-4 |
| InterpolationScenarios.FullCoefficients | aqi_analysis_gui.py:21-22 | the five-day table is 75, 5, -7/2, 13/6, -7/6 |
| InterpolationScenarios.FullEstimate | aqi_analysis_gui.py:21-25 | both methods estimate 78.40625 for day 2.5 from all five days |
| GaussElimination.Augment | network_flow_gui.py:111 | [A \| b] is a new matrix whose rows are the rows of A followed by the entries of b |
| GaussElimination.AugmentSolves | network_flow_gui.py:111 | x solves [A \| b] exactly when A.x == b |
| GaussElimination.PivotRow | network_flow_gui.py:114 | the pivot is a row at or below i whose entry has the largest magnitude, and the first such row (argmax) |
| GaussElimination.SwapRows | network_flow_gui.py:115-116 | rows i and p are exchanged and every other row is unchanged |
| GaussElimination.SwapSolutions | network_flow_gui.py:115-116 | a row exchange keeps the solution set |
| GaussElimination.SubtractMultiple | network_flow_gui.py:121 | entry c of the new row j is row[c] - factor * pivot[c] for every column c >= i; the columns before i are untouched, as the slice `Ab[j, i:]` leaves them |
| GaussElimination.EliminateRows | network_flow_gui.py:118-121 | the inner loop over the rows below i, which does nothing when the pivot entry is exactly zero; the result is again an n by n+1 system (EliminateRowsClears and EliminateRowsSolutions state its effect) |
| GaussElimination.ZeroPivotColumn | network_flow_gui.py:114-119 | a zero entry of largest magnitude means the whole column is zero from row i down |
| GaussElimination.EliminateRowsClears | network_flow_gui.py:118-121 | with a nonzero pivot, column i becomes zero below row i |
| GaussElimination.EliminationStep | network_flow_gui.py:113-121 | step i swaps the pivot row up and clears column i below it; the result is again an n by n+1 system (its effect is stated by EliminationStepEffect and EliminationStepSolutions) |
| GaussElimination.EliminationStepEffect | network_flow_gui.py:113-121 | step i leaves the rows above i alone and makes row i the pivot row; with a zero pivot the rows below are unchanged after the swap; column i is zero below row i afterwards |
| GaussElimination.EliminationStepEchelon | network_flow_gui.py:113-121 | each step extends the zero pattern below the diagonal by one column |
| GaussElimination.EliminatedRowSolutions | network_flow_gui.py:119-121 | when the pivot equation holds, an eliminated row's equation holds exactly when the original one does |
| GaussElimination.EliminateRowsSolutions | network_flow_gui.py:118-121 | the inner loop keeps the solution set |
| GaussElimination.EliminationStepSolutions | network_flow_gui.py:113-121 | a whole step keeps the solution set |
| GaussElimination.ForwardPassesInvariant | network_flow_gui.py:113-121 | after k steps the matrix is in echelon form up to column k and has the original solutions |
| GaussElimination.Reduce | network_flow_gui.py:110-121 | [A \| b] after all n elimination steps, an n by n+1 system (ReduceCorrect states that it is upper triangular with the same solutions) |
| GaussElimination.ReduceCorrect | network_flow_gui.py:110-121 | the reduced system is upper triangular and has exactly the solutions of A.x == b |
| GaussElimination.EliminateBelow | network_flow_gui.py:118-121 | the inner loop computes the row-elimination function |
| GaussElimination.ForwardElimination | network_flow_gui.py:113-121 | the outer loop, with pivoting and swap, computes all n elimination steps |
| GaussElimination.SolveRowBack | network_flow_gui.py:124-127 | solving row i for x[i] keeps every row below i satisfied |
| GaussElimination.Skipped | network_flow_gui.py:125 | the test abs(U[i][i]) < 1e-10 that skips a row; a row that is not skipped has a nonzero diagonal, so the division at line 127 is defined |
| GaussElimination.BackSubstitution | network_flow_gui.py:123-127 | a row whose diagonal is below 1e-10 in magnitude leaves x[i] at 0; every other row's equation holds with the unknowns after it |
| GaussElimination.BackSubstitutionSolves | network_flow_gui.py:123-127 | on an upper-triangular system, the back-substituted x solves every row exactly when the skipped rows are consistent |
| GaussElimination.ReducedSolution | network_flow_gui.py:108-129 | the back-substituted x solves A.x == b exactly when every skipped row of the reduced system is consistent |
| GaussElimination.Solve | network_flow_gui.py:108-129 | the routine returns n unknowns that solve A.x == b exactly when the skipped rows are consistent, and always when no row is skipped |
| IterativeSolvers.SolveRow | network_flow_gui.py:161-162 | the new value of an unknown satisfies its row's equation given the other unknowns |
| IterativeSolvers.JacobiSweep | network_flow_gui.py:135-141 | each new unknown solves its row with all other unknowns taken from the previous iterate |
| IterativeSolvers.SweepPrefix | network_flow_gui.py:160-162 | after j rows of a sweep, each updated unknown solves its row with new values before it and old values after it; the rest keep their old values |
| IterativeSolvers.GaussSeidelSweep | network_flow_gui.py:160-162 | each new unknown solves its row with the values already updated in this sweep before it and the previous iterate after it |
| IterativeSolvers.Update | network_flow_gui.py:140-141 | one update of the chosen scheme: a Jacobi sweep (lines 140-141) or a Gauss-Seidel sweep (lines 160-162), with n unknowns; FixedPointIsSolution states that it leaves x unchanged exactly at a solution |
| IterativeSolvers.Sample | network_flow_gui.py:142 | the error of lines 142 and 164 as the pair of squared norms of x - x_old and x, both nonnegative; the change is zero exactly when the sweep left x unchanged, and the size exactly when x is the zero vector |
| IterativeSolvers.Iterate | network_flow_gui.py:134-141 | the iterate after k updates from x = zeros(n), with n unknowns; IterateStaysAtSolution states that it stays put once it solves the system |
| IterativeSolvers.JacobiFixedPoint | network_flow_gui.py:135-141 | a Jacobi sweep leaves x unchanged exactly when A.x == b |
| IterativeSolvers.SweepAtSolution | network_flow_gui.py:160-162 | a Gauss-Seidel sweep from a solution changes nothing, row by row |
| IterativeSolvers.GaussSeidelFixedPoint | network_flow_gui.py:158-162 | a Gauss-Seidel sweep leaves x unchanged exactly when A.x == b |
| IterativeSolvers.FixedPointIsSolution | network_flow_gui.py:131-172 | for either scheme, the fixed points of the update are exactly the solutions |
| IterativeSolvers.IterateStaysAtSolution | network_flow_gui.py:139-141 | once an iterate solves the system, all later iterates equal it |
| IterativeSolvers.ConvergedIsRatioTest | network_flow_gui.py:142-145 | the squared test holds exactly when norm(x) > 0 and norm(x - x_old) / norm(x) < tol |
| IterativeSolvers.Converged | network_flow_gui.py:142-145 | the test error < tol (also lines 164-167) on squared norms; a sample that passes has tol > 0 and, for a nonnegative change, a nonzero size |
| IterativeSolvers.SelfRatioTest | network_flow_gui.py:164-167 | when the change equals the size, the test passes exactly for a nonzero size and tol > 1 |
| IterativeSolvers.FirstSample | network_flow_gui.py:134-145 | the first history entry compares with the zero start, so it passes only for a nonzero first iterate and tol > 1 |
| IterativeSolvers.SolutionConverges | network_flow_gui.py:139-147 | after reaching a nonzero solution, the next test passes for every positive tol |
| IterativeSolvers.Solve | network_flow_gui.py:131-172 | from the zero vector: one history entry per update, at most maxIter entries and at least one; every entry before the last fails the test; a return before the cap passes it; x is the iterate after as many updates as entries |
| Residuals.ResidualSq | network_flow_gui.py:103-104 | the squared residual is nonnegative, and zero exactly when A.x == b |
| SvdTruncation.Reciprocal | network_flow_gui.py:70-71 | s_inv[k] * s[k] is 1 for a kept value and 0 otherwise; s_inv[k] is nonzero exactly when kept, and lies in [0, 1e10) |
| SvdTruncation.ReciprocalBound | network_flow_gui.py:70-71 | the reciprocal of a kept singular value is positive and below 1 / tolerance |
| SvdTruncation.TruncatedInverse | network_flow_gui.py:71 | entrywise, s_inv times s is 1 or 0, and s_inv is nonzero exactly on the kept values |
| SvdTruncation.SvdSolution | network_flow_gui.py:69-73 | Vh^T (s_inv * (U^T b)), a vector of n entries; SolutionCoordinates, SolutionResidual and FullRankSolves state what it achieves |
| SvdTruncation.PseudoInverse | network_flow_gui.py:71 | s_inv * s * s_inv == s_inv always; s * s_inv * s == s exactly for kept or zero values |
| SvdTruncation.TransposeApply | network_flow_gui.py:73 | Q^T d is the combination of the rows of Q weighted by d |
| SvdTruncation.OrthonormalRoundTrip | network_flow_gui.py:73 | for orthonormal rows, Q (Q^T d) == d |
| SvdTruncation.FactorApply | network_flow_gui.py:69 | for A = U diag(s) Vh, row i of A.x is row i of U times diag(s) times Vh x |
| SvdTruncation.SolutionCoordinates | network_flow_gui.py:71-73 | along each kept direction, s[k] z[k] == (U^T b)[k]; along a dropped direction the solution has no component |
| SvdTruncation.SolutionResidual | network_flow_gui.py:69-73 | A x is U times U^T b with its dropped coordinates set to zero |
| SvdTruncation.FullRankSolves | network_flow_gui.py:69-73 | when every singular value is kept and U, Vh are orthonormal, A x == b |
| NetworkScenario.NetworkReduction | network_flow_gui.py:49-56 | elimination reduces the network matrix without swaps, to three unit pivots and a zero last row |
| NetworkScenario.ReducedBackSubstitution | network_flow_gui.py:123-127 | on the reduced network, back-substitution can only give (37, 27, 12, 0) |
| NetworkScenario.NetworkSolves | network_flow_gui.py:49-56 | (37, 27, 12, 0) satisfies all four flow equations |
| NetworkScenario.NetworkGauss | network_flow_gui.py:49-56 | Gauss elimination on the network returns (37, 27, 12, 0), with zero residual |
| NetworkScenario.FirstJacobiIterate | network_flow_gui.py:134-141 | the first Jacobi iterate on the network is (10, 2.5, -1.5, -12) |
| NetworkScenario.FirstGaussSeidelIterate | network_flow_gui.py:155-162 | the first Gauss-Seidel iterate on the network is (10, 7.5, 2.25, -9.75) |
| NetworkScenario.SolutionIsFixedPoint | network_flow_gui.py:49-56 | (37, 27, 12, 0) is a fixed point of both iterations on the network |
| NetworkScenario.NetworkIterations | network_flow_gui.py:84-100 | both iterations run on the network with the defaults max_iter = 1000 and tol = 1e-10 (lines 131 and 152); no run stops after its first sweep, so the history has between 2 and 1000 entries |

## Left out

- Qt and matplotlib presentation: every widget, table, plot and label, and `main.py`. None of it computes anything the kernels use.
- Timing with `time.time()`, and the `print` messages of the iterative methods. They are side effects only.
- `scipy.interpolate.lagrange`, `CubicSpline` and `np.polyfit`. They are library code that is not part of this model.
- `scipy.linalg.svd` itself: U, s and Vh are inputs to `SvdSolution`. Where orthonormal factors are needed, orthonormality of their rows is a precondition.
- `np.linalg.cond`, `det` and `matrix_rank` in the matrix-information display. They are library calls and feed only the display.
- Floating point: every quantity is an exact real, so rounding, overflow, NaN and infinity are not modelled. Comparisons at 1e-10 are made on exact values.
- IterativeSolvers.Converged: the test is stated on squared norms, `||x - x_old||^2 < tol^2 ||x||^2` with `tol > 0`, because there is no square root over the reals here. `ConvergedIsRatioTest` proves it equals the Python ratio test on norms. A zero `||x||` fails the test, as the NaN or infinite Python quotient does.
- IterativeSolvers.Solve: each history entry is the pair `ErrorSample(||x - x_old||^2, ||x||^2)`, not the scalar `norm(x - x_old) / norm(x)` the Python routines append and plot. The scalar is not defined over the reals when `||x|| == 0`, where the Python value is NaN or infinite. `Converged` applies the stopping test to the pair, and `ConvergedIsRatioTest` relates it to the ratio.
- Interpolation.NewtonInterpolation: it requires `|coef| <= |x| + 1`, and `ValidData` requires `|x| == |y|` for the table and the tableau. The Python code checks neither, and no call site passes such inputs.
- Residuals.ResidualSq: states the squared residual norm, not the norm; it is zero exactly when the norm is.
- Convergence of Jacobi and Gauss-Seidel is not proved. It depends on spectral properties of A, and the reference matrix is singular.
- Interpolation.NewtonDividedDiff and the other interpolation members: repeated nodes make the Python code divide by zero, so they require distinct nodes instead.
- Interpolation.NevilleInterpolation and Interpolation.NewtonInterpolation: they require at least one node or coefficient. On empty input the Python code raises an IndexError: `neville_interpolation` at `Q[:, 0] = y` (aqi_analysis_gui.py line 82), `newton_interpolation` at `coef[0]` (line 71).
- IterativeSolvers.Solve: it requires a nonzero diagonal. With a zero diagonal entry numpy would divide by zero and go on with infinities.
- The default iteration cap 1000 and tolerance 1e-10 are the constants `DefaultMaxIter` and `DefaultTolerance`. `IterativeSolvers.Solve` takes both as parameters, as the Python keyword arguments do, and `NetworkScenario.NetworkIterations` passes the defaults.
- The Python routines work on copies (`A.copy()`, `np.copy(y)`). With immutable values the caller's arguments cannot change, so there is nothing to state.
