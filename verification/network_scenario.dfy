/** The four-node flow network the solver is run on. Its matrix is the
    Laplacian of a path, so it is singular (every row sums to zero), and the
    injections b sum to zero, so the system is consistent. Elimination
    reduces the last row to all zeros; back-substitution skips it, sets that
    unknown to 0, and still returns an exact solution. */
module NetworkScenario {
  import opened Vectors
  import opened GaussElimination
  import opened IterativeSolvers
  import opened Residuals

  const NetworkA: Matrix := [
    [1.0, -1.0, 0.0, 0.0],
    [-1.0, 2.0, -1.0, 0.0],
    [0.0, -1.0, 2.0, -1.0],
    [0.0, 0.0, -1.0, 1.0]
  ]

  const NetworkB: Vector := [10.0, 5.0, -3.0, -12.0]

  /** [A | b] after each pass of forward elimination. No pass swaps rows:
      in every column the first candidate already has the largest magnitude. */
  const Pass1: Matrix := [
    [1.0, -1.0, 0.0, 0.0, 10.0],
    [0.0, 1.0, -1.0, 0.0, 15.0],
    [0.0, -1.0, 2.0, -1.0, -3.0],
    [0.0, 0.0, -1.0, 1.0, -12.0]
  ]

  const Pass2: Matrix := [
    [1.0, -1.0, 0.0, 0.0, 10.0],
    [0.0, 1.0, -1.0, 0.0, 15.0],
    [0.0, 0.0, 1.0, -1.0, 12.0],
    [0.0, 0.0, -1.0, 1.0, -12.0]
  ]

  const Reduced: Matrix := [
    [1.0, -1.0, 0.0, 0.0, 10.0],
    [0.0, 1.0, -1.0, 0.0, 15.0],
    [0.0, 0.0, 1.0, -1.0, 12.0],
    [0.0, 0.0, 0.0, 0.0, 0.0]
  ]

  const NetworkSolution: Vector := [37.0, 27.0, 12.0, 0.0]

  lemma NetworkIsSquare()
    ensures IsSquare(NetworkA, |NetworkB|)
  {
  }

  /** One pass without a row swap: the pivot row is i itself. */
  lemma PassWithoutSwap(M: Matrix, i: nat)
    requires IsAugmented(M, 4) && i < 4 && PivotRow(M, i, i) == i
    ensures EliminationStep(M, 4, i) == EliminateRows(M, 4, i, 4)
  {
  }

  lemma FirstPass()
    ensures IsSquare(NetworkA, |NetworkB|)
    ensures ForwardPasses(Augment(NetworkA, NetworkB), 4, 1) == Pass1
  {
    var M := Augment(NetworkA, NetworkB);
    assert forall r :: 0 <= r < 4 ==> M[r] == NetworkA[r] + [NetworkB[r]];
    assert M[0] == [1.0, -1.0, 0.0, 0.0] + [10.0] == [1.0, -1.0, 0.0, 0.0, 10.0];
    assert M[1] == [-1.0, 2.0, -1.0, 0.0] + [5.0] == [-1.0, 2.0, -1.0, 0.0, 5.0];
    assert M[2] == [0.0, -1.0, 2.0, -1.0] + [-3.0] == [0.0, -1.0, 2.0, -1.0, -3.0];
    assert M[3] == [0.0, 0.0, -1.0, 1.0] + [-12.0] == [0.0, 0.0, -1.0, 1.0, -12.0];
    assert M == [
      [1.0, -1.0, 0.0, 0.0, 10.0],
      [-1.0, 2.0, -1.0, 0.0, 5.0],
      [0.0, -1.0, 2.0, -1.0, -3.0],
      [0.0, 0.0, -1.0, 1.0, -12.0]
    ];
    assert PivotRow(M, 0, 0) == 0 by {
      assert PivotRow(M, 0, 2) == 2;
    }
    PassWithoutSwap(M, 0);
    var E := EliminateRows(M, 4, 0, 4);
    assert Multiplier(M[1][0], M[0][0]) == -1.0;
    assert Multiplier(M[2][0], M[0][0]) == 0.0;
    assert Multiplier(M[3][0], M[0][0]) == 0.0;
    assert E[1] == Pass1[1];
    assert E[2] == Pass1[2];
    assert E[3] == Pass1[3];
    assert E == Pass1;
  }

  lemma SecondPass()
    ensures EliminationStep(Pass1, 4, 1) == Pass2
  {
    var M := Pass1;
    assert PivotRow(M, 1, 1) == 1 by {
      assert PivotRow(M, 1, 2) == 2;
    }
    PassWithoutSwap(M, 1);
    var E := EliminateRows(M, 4, 1, 4);
    assert Multiplier(M[2][1], M[1][1]) == -1.0;
    assert Multiplier(M[3][1], M[1][1]) == 0.0;
    assert E[2] == Pass2[2];
    assert E[3] == Pass2[3];
    assert E == Pass2;
  }

  lemma ThirdPass()
    ensures EliminationStep(Pass2, 4, 2) == Reduced
  {
    var M := Pass2;
    assert PivotRow(M, 2, 2) == 2;
    PassWithoutSwap(M, 2);
    var E := EliminateRows(M, 4, 2, 4);
    assert Multiplier(M[3][2], M[2][2]) == -1.0;
    assert E[3] == Reduced[3];
    assert E == Reduced;
  }

  /** The last pass finds only the zero row, so it changes nothing. */
  lemma LastPass()
    ensures EliminationStep(Reduced, 4, 3) == Reduced
  {
    assert PivotRow(Reduced, 3, 3) == 3;
  }

  /** The reduced system of the network: three pivots of 1 and a zero row. */
  lemma NetworkReduction()
    ensures IsSquare(NetworkA, |NetworkB|)
    ensures Reduce(NetworkA, NetworkB) == Reduced
  {
    FirstPass();
    SecondPass();
    ThirdPass();
    LastPass();
    var M := Augment(NetworkA, NetworkB);
    assert ForwardPasses(M, 4, 2) == Pass2;
    assert ForwardPasses(M, 4, 3) == Reduced;
  }

  /** Back-substitution on the reduced network has exactly one outcome. */
  lemma ReducedBackSubstitution(x: Vector)
    requires |x| == 4 && BackSubstituted(Reduced, 4, x)
    ensures x == NetworkSolution
  {
    var U := Reduced;
    assert Skipped(U, 3) && !Skipped(U, 2) && !Skipped(U, 1) && !Skipped(U, 0);
    assert x[3] == 0.0;
    assert U[2][2] * x[2] + DotRange(U[2], x, 3, 4) == U[2][4];
    assert x[2] == 12.0;
    assert U[1][1] * x[1] + DotRange(U[1], x, 2, 4) == U[1][4];
    assert x[1] == 27.0;
    assert U[0][0] * x[0] + DotRange(U[0], x, 1, 4) == U[0][4];
  }

  /** A dot product over four unknowns, written out. */
  lemma DotOfFour(u: Vector, v: Vector)
    requires |u| >= 4 && |v| == 4
    ensures Dot(u, v) == u[0] * v[0] + u[1] * v[1] + u[2] * v[2] + u[3] * v[3]
  {
    assert DotRange(u, v, 3, 4) == u[3] * v[3];
    assert DotRange(u, v, 2, 4) == u[2] * v[2] + u[3] * v[3];
    assert DotRange(u, v, 1, 4) == u[1] * v[1] + u[2] * v[2] + u[3] * v[3];
  }

  /** (37, 27, 12, 0) satisfies all four flow equations. */
  lemma NetworkSolves()
    ensures MatVec(NetworkA, NetworkSolution) == NetworkB
  {
    var A, x := NetworkA, NetworkSolution;
    DotOfFour(A[0], x);
    DotOfFour(A[1], x);
    DotOfFour(A[2], x);
    DotOfFour(A[3], x);
    assert Dot(A[0], x) == 10.0;
    assert Dot(A[1], x) == 5.0;
    assert Dot(A[2], x) == -3.0;
    assert Dot(A[3], x) == -12.0;
  }

  /** Gauss elimination on the network returns (37, 27, 12, 0), which solves
      it exactly: residual zero. */
  method NetworkGauss() returns (x: Vector)
    ensures x == NetworkSolution
    ensures MatVec(NetworkA, x) == NetworkB
    ensures ResidualSq(NetworkA, x, NetworkB) == 0.0
  {
    NetworkIsSquare();
    x := GaussElimination.Solve(NetworkA, NetworkB);
    NetworkReduction();
    hide Reduce;
    ReducedBackSubstitution(x);
    NetworkSolves();
  }

  /** The first Jacobi iterate: b divided by the diagonal. */
  lemma FirstJacobiIterate()
    ensures Iterable(NetworkA, NetworkB)
    ensures Iterate(Jacobi, NetworkA, NetworkB, 1) == [10.0, 2.5, -1.5, -12.0]
  {
    var z := Zeros(4);
    assert z == [0.0, 0.0, 0.0, 0.0];
    assert OffDiagonal(NetworkA[0], z, z, 0) == 0.0;
    assert OffDiagonal(NetworkA[1], z, z, 1) == 0.0;
    assert OffDiagonal(NetworkA[2], z, z, 2) == 0.0;
    assert OffDiagonal(NetworkA[3], z, z, 3) == 0.0;
  }

  /** The first Gauss-Seidel sweep, each unknown using the ones just updated. */
  lemma FirstGaussSeidelIterate()
    ensures Iterable(NetworkA, NetworkB)
    ensures Iterate(GaussSeidel, NetworkA, NetworkB, 1) == [10.0, 7.5, 2.25, -9.75]
  {
    var A, b, z := NetworkA, NetworkB, Zeros(4);
    var x1 := SweepPrefix(A, b, z, 1);
    assert x1 == [10.0, 0.0, 0.0, 0.0];
    var x2 := SweepPrefix(A, b, z, 2);
    assert x2 == [10.0, 7.5, 0.0, 0.0];
    var x3 := SweepPrefix(A, b, z, 3);
    assert x3 == [10.0, 7.5, 2.25, 0.0];
    assert SweepPrefix(A, b, z, 4) == [10.0, 7.5, 2.25, -9.75];
  }

  /** The elimination solution is a fixed point of both iterations. */
  lemma SolutionIsFixedPoint(s: Scheme)
    ensures Iterable(NetworkA, NetworkB)
    ensures Update(s, NetworkA, NetworkB, NetworkSolution) == NetworkSolution
  {
    NetworkSolves();
    FixedPointIsSolution(s, NetworkA, NetworkB, NetworkSolution);
  }

  /** `compute_solutions` runs both iterations with their default cap of 1000
      sweeps and tolerance 1e-10. That tolerance is below 1, and the first
      error is ||x1|| / ||x1||, so no run stops after its first sweep. */
  method NetworkIterations(s: Scheme) returns (x: Vector, history: seq<ErrorSample>)
    ensures 2 <= |history| <= DefaultMaxIter
    ensures x == Iterate(s, NetworkA, NetworkB, |history|)
    ensures forall k :: 0 <= k < |history| - 1 ==> !Converged(history[k], DefaultTolerance)
  {
    SolutionIsFixedPoint(s);
    x, history := IterativeSolvers.Solve(s, NetworkA, NetworkB, DefaultMaxIter, DefaultTolerance);
    FirstSample(s, NetworkA, NetworkB, DefaultTolerance);
  }
}
