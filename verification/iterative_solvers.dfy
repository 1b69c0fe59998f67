/** The Jacobi and Gauss-Seidel iterations for A.x == b, started from the
    zero vector and stopped at the first iteration whose relative change
    ||x - x_old|| / ||x|| is below a tolerance, or after a maximum number of
    iterations. The stopping test is stated on squared norms. */
module IterativeSolvers {
  import opened Vectors

  datatype Scheme = Jacobi | GaussSeidel

  /** One entry of the error history, as squared norms: ||x - x_old||^2 and ||x||^2. */
  datatype ErrorSample = ErrorSample(changeSq: real, sizeSq: real)

  /** The iteration cap and tolerance both routines use by default. */
  const DefaultMaxIter: nat := 1000
  const DefaultTolerance: real := 0.0000000001

  predicate NonzeroDiagonal(A: Matrix, n: nat)
    requires IsSquare(A, n)
  {
    forall k :: 0 <= k < n ==> A[k][k] != 0.0
  }

  /** A system both iterations can run on: square, with no zero on the diagonal. */
  predicate Iterable(A: Matrix, b: Vector)
  {
    IsSquare(A, |b|) && NonzeroDiagonal(A, |b|)
  }

  /** Row k of A.x without its diagonal term, reading the unknowns before k
      from lo and those after k from hi. */
  function OffDiagonal(row: Vector, lo: Vector, hi: Vector, k: nat): real
    requires k < |row| && |lo| == |row| && |hi| == |row|
  {
    DotRange(row, lo, 0, k) + DotRange(row, hi, k + 1, |row|)
  }

  /** Row k of A.x == b with diag in place of the diagonal unknown, the
      unknowns before k read from lo and those after k from hi. */
  predicate RowHolds(row: Vector, bk: real, k: nat, diag: real, lo: Vector, hi: Vector)
    requires k < |row| && |lo| == |row| && |hi| == |row|
  {
    row[k] * diag + OffDiagonal(row, lo, hi, k) == bk
  }

  /** The value that solves row k for its diagonal unknown, the others fixed. */
  function SolveRow(A: Matrix, b: Vector, k: nat, off: real): (v: real)
    requires Iterable(A, b) && k < |b|
    ensures A[k][k] * v + off == b[k]
  {
    (b[k] - off) / A[k][k]
  }

  /** Jacobi: every unknown solved from its row with all the others taken
      from the previous iterate, x = (b - R.x_old) / D. */
  function JacobiSweep(A: Matrix, b: Vector, xold: Vector): (x: Vector)
    requires Iterable(A, b) && |xold| == |b|
    ensures |x| == |b|
    ensures forall k :: 0 <= k < |b| ==> RowHolds(A[k], b[k], k, x[k], xold, xold)
  {
    seq(|b|, k requires 0 <= k < |b| => SolveRow(A, b, k, OffDiagonal(A[k], xold, xold, k)))
  }

  /** The Gauss-Seidel contract after rows 0..m-1: those unknowns each solve
      their row with the values of x before them and of xold after them; the
      rest still hold xold. */
  predicate SweptUpTo(A: Matrix, b: Vector, xold: Vector, x: Vector, m: nat)
    requires Iterable(A, b) && |xold| == |b| && |x| == |b| && m <= |b|
  {
    && (forall c :: m <= c < |b| ==> x[c] == xold[c])
    && (forall c :: 0 <= c < m ==> x[c] == SolveRow(A, b, c, OffDiagonal(A[c], x, xold, c)))
  }

  /** Solving row m-1 from the current values extends the contract to row m-1. */
  lemma SweepStep(A: Matrix, b: Vector, xold: Vector, x: Vector, m: nat, v: real)
    requires Iterable(A, b) && |xold| == |b| && |x| == |b| && 1 <= m <= |b|
    requires SweptUpTo(A, b, xold, x, m - 1)
    requires v == SolveRow(A, b, m - 1, OffDiagonal(A[m - 1], x, xold, m - 1))
    ensures SweptUpTo(A, b, xold, x[m - 1 := v], m)
  {
    hide SolveRow;
    var x' := x[m - 1 := v];
    forall c | 0 <= c < m
      ensures DotRange(A[c], x', 0, c) == DotRange(A[c], x, 0, c)
    {
      DotRangeFrame(A[c], x', A[c], x, 0, c);
    }
  }

  /** A completed sweep satisfies every row with its new values before the
      diagonal and the old ones after it. */
  lemma SweepSolvesRows(A: Matrix, b: Vector, xold: Vector, x: Vector)
    requires Iterable(A, b) && |xold| == |b| && |x| == |b|
    requires SweptUpTo(A, b, xold, x, |b|)
    ensures forall c :: 0 <= c < |b| ==> RowHolds(A[c], b[c], c, x[c], x, xold)
  {
    forall c | 0 <= c < |b|
      ensures RowHolds(A[c], b[c], c, x[c], x, xold)
    {
      var v := SolveRow(A, b, c, OffDiagonal(A[c], x, xold, c));
      assert x[c] == v;
    }
  }

  /** Gauss-Seidel after rows 0..m-1 of a sweep: each of those unknowns was
      solved from its row using the values already updated in this sweep
      before it and the previous iterate after it; the rest still hold x_old. */
  function SweepPrefix(A: Matrix, b: Vector, xold: Vector, m: nat): (x: Vector)
    requires Iterable(A, b) && |xold| == |b| && m <= |b|
    ensures |x| == |b|
    ensures SweptUpTo(A, b, xold, x, m)
    decreases m
  {
    if m == 0 then xold
    else
      var x := SweepPrefix(A, b, xold, m - 1);
      var v := SolveRow(A, b, m - 1, OffDiagonal(A[m - 1], x, xold, m - 1));
      SweepStep(A, b, xold, x, m, v);
      x[m - 1 := v]
  }

  /** One full Gauss-Seidel sweep. */
  function GaussSeidelSweep(A: Matrix, b: Vector, xold: Vector): (x: Vector)
    requires Iterable(A, b) && |xold| == |b|
    ensures |x| == |b|
    ensures forall c :: 0 <= c < |b| ==> RowHolds(A[c], b[c], c, x[c], x, xold)
  {
    var x := SweepPrefix(A, b, xold, |b|);
    SweepSolvesRows(A, b, xold, x);
    x
  }

  function Update(s: Scheme, A: Matrix, b: Vector, xold: Vector): (x: Vector)
    requires Iterable(A, b) && |xold| == |b|
    ensures |x| == |b|
  {
    match s
    case Jacobi => JacobiSweep(A, b, xold)
    case GaussSeidel => GaussSeidelSweep(A, b, xold)
  }

  /** The k-th iterate from the zero vector. */
  function Iterate(s: Scheme, A: Matrix, b: Vector, k: nat): (x: Vector)
    requires Iterable(A, b)
    ensures |x| == |b|
  {
    if k == 0 then Zeros(|b|) else Update(s, A, b, Iterate(s, A, b, k - 1))
  }

  /** The history entry recorded after moving from xold to x: the squares of
      ||x - x_old|| and ||x||. The change is zero exactly when the sweep left
      x where it was, and the size exactly when x is the zero vector. */
  function Sample(xold: Vector, x: Vector): (e: ErrorSample)
    requires |xold| == |x|
    ensures 0.0 <= e.changeSq && 0.0 <= e.sizeSq
    ensures e.changeSq == 0.0 <==> x == xold
    ensures e.sizeSq == 0.0 <==> x == Zeros(|x|)
  {
    SubZero(x, xold);
    NormSqZero(x);
    assert x == Zeros(|x|) <==> forall k :: 0 <= k < |x| ==> x[k] == 0.0;
    ErrorSample(NormSq(Sub(x, xold)), NormSq(x))
  }

  /** The stopping test error < tol with error = ||x - x_old|| / ||x||, on
      squared norms. It fails when tol <= 0, and when ||x|| == 0, where the
      Python quotient of `jacobi_method` and `gauss_seidel_method` is NaN
      or infinite and compares false. */
  predicate Converged(e: ErrorSample, tol: real)
    ensures Converged(e, tol) ==> 0.0 < tol
    ensures Converged(e, tol) && 0.0 <= e.changeSq ==> 0.0 < e.sizeSq
  {
    0.0 < tol && e.changeSq < Sq(tol) * e.sizeSq
  }

  // ---------------------------------------------------------------------
  // The stopping test

  lemma QuotientBelow(change: real, size: real, tol: real)
    requires size > 0.0
    ensures change / size < tol <==> change < tol * size
  {
    var q := change / size;
    assert change == q * size;
    if q < tol {
      MulPositive(tol - q, size);
      assert tol * size - q * size == (tol - q) * size;
    } else {
      MulNonnegative(q - tol, size);
      assert q * size - tol * size == (q - tol) * size;
    }
  }

  /** The squared test agrees with the ratio test `error < tol` on norms: for
      change = ||x - x_old|| >= 0 and size = ||x|| >= 0 it holds exactly when
      ||x|| is positive and change / size < tol. */
  lemma ConvergedIsRatioTest(change: real, size: real, tol: real)
    requires change >= 0.0 && size >= 0.0
    ensures Converged(ErrorSample(Sq(change), Sq(size)), tol) <==> size > 0.0 && 0.0 < tol && change / size < tol
  {
    if size > 0.0 && 0.0 < tol {
      QuotientBelow(change, size, tol);
      SqProduct(tol, size);
      MulPositive(tol, size);
      if change < tol * size {
        SqMonotone(change, tol * size);
      } else if tol * size < change {
        SqMonotone(tol * size, change);
      }
    } else if size == 0.0 {
      assert Sq(size) == 0.0;
      SqNonnegative(change);
    }
  }

  // ---------------------------------------------------------------------
  // Fixed points

  lemma DiagonalCancel(d: real, u: real, v: real, off: real, bk: real)
    requires d != 0.0 && d * u + off == bk && d * v + off == bk
    ensures u == v
  {
    assert d * (u - v) == 0.0;
  }

  /** A Jacobi sweep leaves x where it is exactly when x solves A.x == b. */
  lemma JacobiFixedPoint(A: Matrix, b: Vector, x: Vector)
    requires Iterable(A, b) && |x| == |b|
    ensures JacobiSweep(A, b, x) == x <==> MatVec(A, x) == b
  {
    var y := JacobiSweep(A, b, x);
    forall k | 0 <= k < |b|
      ensures y[k] == x[k] <==> Dot(A[k], x) == b[k]
    {
      DotAroundDiagonal(A[k], x, k);
      if Dot(A[k], x) == b[k] {
        DiagonalCancel(A[k][k], y[k], x[k], OffDiagonal(A[k], x, x, k), b[k]);
      }
    }
    if MatVec(A, x) == b {
      assert forall k :: 0 <= k < |b| ==> Dot(A[k], x) == MatVec(A, x)[k];
    } else {
      var k :| 0 <= k < |b| && MatVec(A, x)[k] != b[k];
      assert y[k] != x[k];
    }
  }

  /** Row k of a solution x, solved for x[k] while the entries before k agree
      with x, gives back x[k]. */
  lemma SolveRowAtSolution(A: Matrix, b: Vector, x: Vector, y: Vector, k: nat)
    requires Iterable(A, b) && |x| == |b| && |y| == |b| && k < |b|
    requires Dot(A[k], x) == b[k]
    requires forall c :: 0 <= c < k ==> y[c] == x[c]
    requires y[k] == SolveRow(A, b, k, OffDiagonal(A[k], y, x, k))
    ensures y[k] == x[k]
  {
    DotRangeFrame(A[k], y, A[k], x, 0, k);
    DotAroundDiagonal(A[k], x, k);
    DiagonalCancel(A[k][k], y[k], x[k], OffDiagonal(A[k], x, x, k), b[k]);
  }

  /** Sweeping from a solution changes nothing, row after row. */
  lemma {:induction false} SweepAtSolution(A: Matrix, b: Vector, x: Vector, m: nat)
    requires Iterable(A, b) && |x| == |b| && m <= |b| && MatVec(A, x) == b
    ensures SweepPrefix(A, b, x, m) == x
    decreases m
  {
    if m > 0 {
      SweepAtSolution(A, b, x, m - 1);
      var k := m - 1;
      var y := SweepPrefix(A, b, x, m);
      assert y == SweepPrefix(A, b, x, k)[k := y[k]];
      hide SweepPrefix, SolveRow, OffDiagonal;
      assert SweptUpTo(A, b, x, y, m);
      assert MatVec(A, x)[k] == b[k];
      SolveRowAtSolution(A, b, x, y, k);
    }
  }

  /** A row whose diagonal equation holds with every unknown read from x
      is the row equation Dot(row, x) == bk. */
  lemma DiagonalRowHolds(row: Vector, x: Vector, k: nat, bk: real)
    requires k < |row| && |x| == |row|
    requires RowHolds(row, bk, k, x[k], x, x)
    ensures Dot(row, x) == bk
  {
    DotAroundDiagonal(row, x, k);
  }

  /** A Gauss-Seidel sweep leaves x where it is exactly when x solves A.x == b. */
  lemma GaussSeidelFixedPoint(A: Matrix, b: Vector, x: Vector)
    requires Iterable(A, b) && |x| == |b|
    ensures GaussSeidelSweep(A, b, x) == x <==> MatVec(A, x) == b
  {
    if GaussSeidelSweep(A, b, x) == x {
      hide RowHolds, Iterable;
      forall k | 0 <= k < |b|
        ensures MatVec(A, x)[k] == b[k]
      {
        DiagonalRowHolds(A[k], x, k, b[k]);
      }
    } else if MatVec(A, x) == b {
      SweepAtSolution(A, b, x, |b|);
    }
  }

  /** Either update has exactly the solutions of A.x == b as fixed points. */
  lemma FixedPointIsSolution(s: Scheme, A: Matrix, b: Vector, x: Vector)
    requires Iterable(A, b) && |x| == |b|
    ensures Update(s, A, b, x) == x <==> MatVec(A, x) == b
  {
    match s
    case Jacobi => JacobiFixedPoint(A, b, x);
    case GaussSeidel => GaussSeidelFixedPoint(A, b, x);
  }

  /** Once an iterate solves the system, every later iterate is the same
      vector. */
  lemma {:induction false} IterateStaysAtSolution(s: Scheme, A: Matrix, b: Vector, k: nat, m: nat)
    requires Iterable(A, b) && MatVec(A, Iterate(s, A, b, k)) == b
    ensures Iterate(s, A, b, k + m) == Iterate(s, A, b, k)
    decreases m
  {
    hide Update, JacobiSweep, GaussSeidelSweep, SweepPrefix, SolveRow, MatVec, Dot, DotRange, Iterable;
    if m > 0 {
      IterateStaysAtSolution(s, A, b, k, m - 1);
      FixedPointIsSolution(s, A, b, Iterate(s, A, b, k));
      assert Iterate(s, A, b, k + m) == Update(s, A, b, Iterate(s, A, b, k + m - 1));
    }
  }

  /** Reaching a nonzero solution stops the loop at the next test, whatever
      the positive tolerance. */
  lemma SolutionConverges(s: Scheme, A: Matrix, b: Vector, k: nat, tol: real)
    requires Iterable(A, b) && MatVec(A, Iterate(s, A, b, k)) == b
    requires NormSq(Iterate(s, A, b, k)) > 0.0 && 0.0 < tol
    ensures Converged(Sample(Iterate(s, A, b, k), Iterate(s, A, b, k + 1)), tol)
  {
    hide Update, Iterable, MatVec, NormSq, Sub;
    var x := Iterate(s, A, b, k);
    IterateStaysAtSolution(s, A, b, k, 1);
    SqPositive(tol);
    MulPositive(Sq(tol), NormSq(x));
  }

  /** The stopping test on a sample whose change equals its size. */
  lemma SelfRatioTest(c: real, tol: real)
    requires c >= 0.0
    ensures Converged(ErrorSample(c, c), tol) <==> c > 0.0 && tol > 1.0
  {
    if tol > 1.0 {
      SqMonotone(1.0, tol);
      if c > 0.0 {
        MulPositive(Sq(tol) - 1.0, c);
        assert Sq(tol) * c - c == (Sq(tol) - 1.0) * c;
      }
    } else if 0.0 < tol {
      if tol < 1.0 {
        SqMonotone(tol, 1.0);
      }
      MulNonnegative(1.0 - Sq(tol), c);
      assert c - Sq(tol) * c == (1.0 - Sq(tol)) * c;
    }
  }

  /** The first entry of every history compares the first iterate with the
      zero start, so its change equals its size: the first test passes only
      for a nonzero first iterate and a tolerance above 1. */
  lemma FirstSample(s: Scheme, A: Matrix, b: Vector, tol: real)
    requires Iterable(A, b)
    ensures Converged(Sample(Iterate(s, A, b, 0), Iterate(s, A, b, 1)), tol) <==>
      NormSq(Iterate(s, A, b, 1)) > 0.0 && tol > 1.0
  {
    hide Update, Iterable;
    var x := Iterate(s, A, b, 1);
    assert Sub(x, Iterate(s, A, b, 0)) == x;
    SelfRatioTest(NormSq(x), tol);
  }

  // ---------------------------------------------------------------------
  // The iteration loop

  /** The loop shared by jacobi_method and gauss_seidel_method: from the zero
      vector, at most maxIter updates, one history entry per update, and a
      return at the first entry that passes the stopping test. */
  method Solve(s: Scheme, A: Matrix, b: Vector, maxIter: nat, tol: real) returns (x: Vector, history: seq<ErrorSample>)
    requires Iterable(A, b)
    ensures |history| <= maxIter
    ensures maxIter > 0 ==> |history| >= 1
    ensures x == Iterate(s, A, b, |history|)
    ensures forall k :: 0 <= k < |history| ==> history[k] == Sample(Iterate(s, A, b, k), Iterate(s, A, b, k + 1))
    ensures forall k :: 0 <= k < |history| - 1 ==> !Converged(history[k], tol)
    ensures |history| < maxIter ==> |history| >= 1 && Converged(history[|history| - 1], tol)
  {
    hide Update, JacobiSweep, GaussSeidelSweep, SweepPrefix, SolveRow, NormSq, Sub, Sample, Converged, Iterable, Zeros;
    x := Zeros(|b|);
    history := [];
    var i := 0;
    while i < maxIter
      invariant i <= maxIter && |history| == i
      invariant x == Iterate(s, A, b, i)
      invariant forall k :: 0 <= k < i ==> history[k] == Sample(Iterate(s, A, b, k), Iterate(s, A, b, k + 1))
      invariant forall k :: 0 <= k < i ==> !Converged(history[k], tol)
    {
      var xold := x;
      x := Update(s, A, b, xold);
      var error := Sample(xold, x);
      history := history + [error];
      if Converged(error, tol) {
        return;
      }
      i := i + 1;
    }
  }
}
