/** Gaussian elimination with partial pivoting on the augmented matrix
    [A | b], followed by back-substitution that leaves x[i] at 0 for every
    row whose diagonal is below a small tolerance. Exact real arithmetic. */
module GaussElimination {
  import opened Vectors

  // Proofs here `hide` the row operations (Multiplier, SubtractMultiple,
  // EliminateRows, EliminationStep, ...) whose definitions they do not
  // unfold, so the products in those definitions stay out of the solver's
  // way. The contracts of a hidden function stay visible.

  /** Back-substitution skips a row whose diagonal magnitude is below 1e-10. */
  const PivotTolerance: real := 0.0000000001

  /** An n-by-(n+1) augmented matrix: coefficients in columns 0..n-1, the
      right-hand side in column n. */
  predicate IsAugmented(M: Matrix, n: nat)
  {
    |M| == n && forall r :: 0 <= r < n ==> |M[r]| == n + 1
  }

  /** [A | b]: a fresh matrix, so the caller's A and b are never written. */
  function Augment(A: Matrix, b: Vector): (M: Matrix)
    requires IsSquare(A, |b|)
    ensures IsAugmented(M, |b|)
    ensures forall r :: 0 <= r < |b| ==> M[r][..|b|] == A[r] && M[r][|b|] == b[r]
  {
    seq(|b|, r requires 0 <= r < |b| => A[r] + [b[r]])
  }

  /** x satisfies every equation of the augmented system M. */
  predicate Solves(M: Matrix, x: Vector)
    requires IsAugmented(M, |x|)
  {
    forall r :: 0 <= r < |M| ==> Dot(M[r], x) == M[r][|x|]
  }

  /** Solving [A | b] is solving A.x == b. */
  lemma AugmentSolves(A: Matrix, b: Vector, x: Vector)
    requires IsSquare(A, |b|) && |x| == |b|
    ensures Solves(Augment(A, b), x) <==> MatVec(A, x) == b
  {
    var M := Augment(A, b);
    forall r | 0 <= r < |b|
      ensures Dot(M[r], x) == Dot(A[r], x)
    {
      assert forall c :: 0 <= c < |b| ==> M[r][c] == M[r][..|b|][c];
      DotRangeFrame(M[r], x, A[r], x, 0, |b|);
    }
    if Solves(M, x) {
      assert forall r :: 0 <= r < |b| ==> MatVec(A, x)[r] == b[r];
    }
  }

  // ---------------------------------------------------------------------
  // One elimination step

  /** The pivot row for column col among rows lo..: the first row whose
      entry in that column has the largest magnitude (numpy's argmax). */
  function PivotRow(M: Matrix, col: nat, lo: nat): (p: nat)
    requires lo < |M| && forall r :: lo <= r < |M| ==> col < |M[r]|
    ensures lo <= p < |M|
    ensures forall r :: lo <= r < |M| ==> Abs(M[r][col]) <= Abs(M[p][col])
    ensures forall r :: lo <= r < p ==> Abs(M[r][col]) < Abs(M[p][col])
    decreases |M| - lo
  {
    if lo == |M| - 1 then lo
    else
      var q := PivotRow(M, col, lo + 1);
      if Abs(M[q][col]) <= Abs(M[lo][col]) then lo else q
  }

  /** Exchange rows i and p. */
  function SwapRows(M: Matrix, i: nat, p: nat): (S: Matrix)
    requires i < |M| && p < |M|
    ensures |S| == |M| && S[i] == M[p] && S[p] == M[i]
    ensures forall r :: 0 <= r < |M| && r != i && r != p ==> S[r] == M[r]
  {
    if p == i then M else M[i := M[p]][p := M[i]]
  }

  function Multiplier(a: real, d: real): real
    requires d != 0.0
  {
    a / d
  }

  /** Row minus factor times the pivot row, on columns i.. only; the columns
      before i are left as they are. */
  function SubtractMultiple(row: Vector, pivotRow: Vector, i: nat, factor: real): (w: Vector)
    requires |row| == |pivotRow| && i <= |row|
    ensures |w| == |row|
    ensures forall c :: 0 <= c < i ==> w[c] == row[c]
    ensures forall c :: i <= c < |row| ==> w[c] == row[c] - factor * pivotRow[c]
  {
    seq(|row|, c requires 0 <= c < |row| => if c < i then row[c] else row[c] - factor * pivotRow[c])
  }

  /** The matrix after the inner loop has processed rows i+1..j-1 with pivot
      row i; nothing happens when the pivot entry is exactly zero. */
  function EliminateRows(S: Matrix, n: nat, i: nat, j: nat): (E: Matrix)
    requires IsAugmented(S, n) && i < n
    ensures IsAugmented(E, n)
  {
    seq(n, r requires 0 <= r < n =>
      if i < r < j && S[i][i] != 0.0 then SubtractMultiple(S[r], S[i], i, Multiplier(S[r][i], S[i][i])) else S[r])
  }

  /** Step i: bring the pivot row up, then clear column i below it. */
  function EliminationStep(M: Matrix, n: nat, i: nat): (E: Matrix)
    requires IsAugmented(M, n) && i < n
    ensures IsAugmented(E, n)
  {
    EliminateRows(SwapRows(M, i, PivotRow(M, i, i)), n, i, n)
  }

  /** Steps 0..k-1 applied in order. */
  function ForwardPasses(M: Matrix, n: nat, k: nat): (U: Matrix)
    requires IsAugmented(M, n) && k <= n
    ensures IsAugmented(U, n)
  {
    if k == 0 then M else EliminationStep(ForwardPasses(M, n, k - 1), n, k - 1)
  }

  /** The reduced system the elimination leaves for back-substitution. */
  function Reduce(A: Matrix, b: Vector): (U: Matrix)
    requires IsSquare(A, |b|)
    ensures IsAugmented(U, |b|)
  {
    ForwardPasses(Augment(A, b), |b|, |b|)
  }

  /** Every row r is zero in the columns before min(r, k): after k steps the
      first k columns are cleared below the diagonal. */
  predicate Echelon(M: Matrix, n: nat, k: nat)
    requires IsAugmented(M, n)
  {
    forall r, c :: 0 <= r < n && 0 <= c < r && c < k ==> M[r][c] == 0.0
  }

  predicate UpperTriangular(M: Matrix, n: nat)
    requires IsAugmented(M, n)
  {
    forall r, c :: 0 <= r < n && 0 <= c < r ==> M[r][c] == 0.0
  }

  lemma CancelMultiplier(a: real, d: real)
    requires d != 0.0
    ensures a - Multiplier(a, d) * d == 0.0
  {
  }

  /** The inner loop leaves rows 0..i alone, and does nothing at all when
      the pivot entry is zero. */
  lemma EliminateRowsFrame(S: Matrix, n: nat, i: nat)
    requires IsAugmented(S, n) && i < n
    ensures forall r :: 0 <= r <= i ==> EliminateRows(S, n, i, n)[r] == S[r]
    ensures S[i][i] == 0.0 ==> EliminateRows(S, n, i, n) == S
  {
  }

  /** With a nonzero pivot the inner loop clears column i below row i. */
  lemma EliminateRowsClears(S: Matrix, n: nat, i: nat)
    requires IsAugmented(S, n) && i < n && S[i][i] != 0.0
    ensures forall r :: i < r < n ==> EliminateRows(S, n, i, n)[r][i] == 0.0
  {
    var E := EliminateRows(S, n, i, n);
    forall r | i < r < n
      ensures E[r][i] == 0.0
    {
      CancelMultiplier(S[r][i], S[i][i]);
    }
  }

  /** A zero pivot of largest magnitude means the whole column is zero from row lo down. */
  lemma ZeroPivotColumn(M: Matrix, col: nat, lo: nat)
    requires lo < |M| && forall r :: lo <= r < |M| ==> col < |M[r]|
    requires M[PivotRow(M, col, lo)][col] == 0.0
    ensures forall r :: lo <= r < |M| ==> M[r][col] == 0.0
  {
    var p := PivotRow(M, col, lo);
    forall r | lo <= r < |M|
      ensures M[r][col] == 0.0
    {
      assert Abs(M[r][col]) <= Abs(M[p][col]);
    }
  }

  /** What step i does: rows above i stay, row i becomes the pivot row, the
      other rows below are eliminated against it (or, when the pivot entry is
      zero, left as they were after the swap), and column i is then zero below
      the diagonal. */
  lemma EliminationStepEffect(M: Matrix, n: nat, i: nat)
    requires IsAugmented(M, n) && i < n
    ensures var p := PivotRow(M, i, i);
            var S := SwapRows(M, i, p);
            var E := EliminationStep(M, n, i);
            && (forall r :: 0 <= r <= i ==> E[r] == S[r])
            && (forall r :: 0 <= r < i ==> E[r] == M[r])
            && E[i] == M[p]
            && (S[i][i] == 0.0 ==> forall r :: i < r < n ==> E[r] == S[r])
            && (forall r :: i < r < n ==> E[r][i] == 0.0)
  {
    var p := PivotRow(M, i, i);
    var S := SwapRows(M, i, p);
    var E := EliminationStep(M, n, i);
    assert E == EliminateRows(S, n, i, n);
    EliminateRowsFrame(S, n, i);
    if S[i][i] != 0.0 {
      EliminateRowsClears(S, n, i);
    } else {
      ZeroPivotColumn(M, i, i);
      hide EliminateRows, EliminationStep, PivotRow;
      forall r | i < r < n
        ensures S[r][i] == 0.0
      {
        var q := if r == p then i else r;
        assert S[r] == M[q];
      }
    }
  }

  /** Step i keeps the echelon shape and extends it by one column. */
  lemma EliminationStepEchelon(M: Matrix, n: nat, i: nat)
    requires IsAugmented(M, n) && i < n && Echelon(M, n, i)
    ensures Echelon(EliminationStep(M, n, i), n, i + 1)
  {
    EliminationStepEffect(M, n, i);
    var p := PivotRow(M, i, i);
    var S := SwapRows(M, i, p);
    var E := EliminationStep(M, n, i);
    forall r, c | 0 <= r < n && 0 <= c < r && c < i + 1
      ensures E[r][c] == 0.0
    {
      if r > i && c < i {
        var q := if r == p then i else r;
        assert S[r] == M[q] && i <= q;
        assert E[r][c] == S[r][c];
      }
    }
  }

  /** The algebra of one row operation on an equation: with w = u - f*v on
      both sides and v satisfied, w is satisfied exactly when u is. */
  lemma RowOpAlgebra(dw: real, du: real, dv: real, rw: real, ru: real, rv: real, f: real)
    requires dw == du - f * dv && rw == ru - f * rv && dv == rv
    ensures dw == rw <==> du == ru
  {
  }

  /** An equation w = u - f*v (right-hand sides included) against a satisfied
      equation v holds exactly when u does. */
  lemma RowEquationShift(u: Vector, v: Vector, w: Vector, x: Vector, f: real)
    requires |u| == |x| + 1 && |v| == |x| + 1 && |w| == |x| + 1
    requires forall c :: 0 <= c < |x| + 1 ==> w[c] == u[c] - f * v[c]
    requires Dot(v, x) == v[|x|]
    ensures Dot(w, x) == w[|x|] <==> Dot(u, x) == u[|x|]
  {
    DotRangeLinear(u, v, w, x, f, 0, |x|);
    RowOpAlgebra(Dot(w, x), Dot(u, x), Dot(v, x), w[|x|], u[|x|], v[|x|], f);
  }

  /** An eliminated row r > i is row r minus the multiplier times row i, in
      every column: the columns before i agree because row i is zero there. */
  lemma EliminatedRowEntries(S: Matrix, n: nat, i: nat, r: nat)
    requires IsAugmented(S, n) && i < r < n && S[i][i] != 0.0
    requires forall c :: 0 <= c < i ==> S[i][c] == 0.0
    ensures forall c :: 0 <= c < n + 1 ==>
      EliminateRows(S, n, i, n)[r][c] == S[r][c] - Multiplier(S[r][i], S[i][i]) * S[i][c]
  {
    var f := Multiplier(S[r][i], S[i][i]);
    var w := SubtractMultiple(S[r], S[i], i, f);
    assert EliminateRows(S, n, i, n)[r] == w;
    hide Multiplier, EliminateRows, SubtractMultiple;
    forall c | 0 <= c < n + 1
      ensures w[c] == S[r][c] - f * S[i][c]
    {
    }
  }

  /** One eliminated row r > i: given that the pivot equation holds, the new
      equation holds exactly when the old one does. */
  lemma EliminatedRowSolutions(S: Matrix, n: nat, i: nat, r: nat, x: Vector)
    requires IsAugmented(S, n) && i < r < n && |x| == n && S[i][i] != 0.0
    requires forall c :: 0 <= c < i ==> S[i][c] == 0.0
    requires Dot(S[i], x) == S[i][n]
    ensures var E := EliminateRows(S, n, i, n);
            Dot(E[r], x) == E[r][n] <==> Dot(S[r], x) == S[r][n]
  {
    hide Multiplier, EliminateRows, Dot, DotRange, SubtractMultiple;
    EliminatedRowEntries(S, n, i, r);
    var E := EliminateRows(S, n, i, n);
    RowEquationShift(S[r], S[i], E[r], x, Multiplier(S[r][i], S[i][i]));
  }

  /** Subtracting a multiple of row i (zero before column i) from the rows
      below it does not change the solution set. */
  lemma EliminateRowsSolutions(S: Matrix, n: nat, i: nat, x: Vector)
    requires IsAugmented(S, n) && i < n && |x| == n
    requires forall c :: 0 <= c < i ==> S[i][c] == 0.0
    ensures Solves(S, x) <==> Solves(EliminateRows(S, n, i, n), x)
  {
    var E := EliminateRows(S, n, i, n);
    if S[i][i] != 0.0 {
      assert forall r :: 0 <= r <= i ==> E[r] == S[r];
      hide EliminateRows, Multiplier, SubtractMultiple;
      if Dot(S[i], x) == S[i][n] {
        forall r | i < r < n
          ensures Dot(E[r], x) == E[r][n] <==> Dot(S[r], x) == S[r][n]
        {
          EliminatedRowSolutions(S, n, i, r, x);
        }
      }
    } else {
      assert E == S;
    }
  }

  /** Exchanging two rows does not change the solution set. */
  lemma SwapSolutions(M: Matrix, n: nat, i: nat, p: nat, x: Vector)
    requires IsAugmented(M, n) && i < n && p < n && |x| == n
    ensures Solves(M, x) <==> Solves(SwapRows(M, i, p), x)
  {
    var S := SwapRows(M, i, p);
    if Solves(S, x) {
      forall r | 0 <= r < n
        ensures Dot(M[r], x) == M[r][n]
      {
        var q := if r == i then p else if r == p then i else r;
        assert S[q] == M[r];
      }
    }
  }

  /** Step i, on a matrix already in echelon form up to column i, keeps the solution set. */
  lemma EliminationStepSolutions(M: Matrix, n: nat, i: nat, x: Vector)
    requires IsAugmented(M, n) && i < n && Echelon(M, n, i) && |x| == n
    ensures Solves(M, x) <==> Solves(EliminationStep(M, n, i), x)
  {
    var p := PivotRow(M, i, i);
    var S := SwapRows(M, i, p);
    SwapSolutions(M, n, i, p, x);
    forall c | 0 <= c < i
      ensures S[i][c] == 0.0
    {
      assert S[i][c] == M[p][c];
    }
    EliminateRowsSolutions(S, n, i, x);
  }

  /** Every matrix is in echelon form up to column 0. */
  lemma EchelonStart(M: Matrix, n: nat)
    requires IsAugmented(M, n)
    ensures Echelon(M, n, 0)
  {
  }

  /** Pass k - 1 carries the invariant from k - 1 passes to k. */
  lemma ForwardPassStep(M: Matrix, n: nat, k: nat, x: Vector)
    requires IsAugmented(M, n) && 0 < k <= n && |x| == n
    requires Echelon(ForwardPasses(M, n, k - 1), n, k - 1)
    requires Solves(M, x) <==> Solves(ForwardPasses(M, n, k - 1), x)
    ensures Echelon(ForwardPasses(M, n, k), n, k)
    ensures Solves(M, x) <==> Solves(ForwardPasses(M, n, k), x)
  {
    hide EliminationStep, EliminateRows, Multiplier, SubtractMultiple, PivotRow, SwapRows, Echelon, Solves, Dot, DotRange, IsAugmented;
    var P := ForwardPasses(M, n, k - 1);
    EliminationStepEchelon(P, n, k - 1);
    EliminationStepSolutions(P, n, k - 1, x);
  }

  /** After k steps: echelon form up to column k, and the same solutions as the start. */
  lemma {:induction false} ForwardPassesInvariant(M: Matrix, n: nat, k: nat, x: Vector)
    requires IsAugmented(M, n) && k <= n && |x| == n
    ensures Echelon(ForwardPasses(M, n, k), n, k)
    ensures Solves(M, x) <==> Solves(ForwardPasses(M, n, k), x)
  {
    hide EliminationStep, Echelon, Solves, IsAugmented;
    if k == 0 {
      EchelonStart(M, n);
    } else {
      ForwardPassesInvariant(M, n, k - 1, x);
      ForwardPassStep(M, n, k, x);
    }
  }

  /** The reduced system is upper triangular and has exactly the solutions of A.x == b. */
  lemma ReduceCorrect(A: Matrix, b: Vector, x: Vector)
    requires IsSquare(A, |b|) && |x| == |b|
    ensures UpperTriangular(Reduce(A, b), |b|)
    ensures Solves(Reduce(A, b), x) <==> MatVec(A, x) == b
  {
    ForwardPassesInvariant(Augment(A, b), |b|, |b|, x);
    AugmentSolves(A, b, x);
  }

  // ---------------------------------------------------------------------
  // Back-substitution

  /** Row i is skipped by back-substitution: its diagonal is numerically zero. */
  predicate Skipped(U: Matrix, i: nat)
    requires i < |U| && i < |U[i]|
    ensures !Skipped(U, i) ==> U[i][i] != 0.0
  {
    Abs(U[i][i]) < PivotTolerance
  }

  lemma DivideBack(a: real, d: real)
    requires d != 0.0
    ensures d * (a / d) == a
  {
  }

  /** Row k of U read from its diagonal on: the diagonal term plus the
      entries after it. */
  function BackRow(U: Matrix, n: nat, x: Vector, k: nat): real
    requires IsAugmented(U, n) && |x| == n && k < n
  {
    U[k][k] * x[k] + DotRange(U[k], x, k + 1, n)
  }

  /** BackRow reads only the unknowns from k on. */
  lemma BackRowFrame(U: Matrix, n: nat, x: Vector, y: Vector, k: nat)
    requires IsAugmented(U, n) && |x| == n && |y| == n && k < n
    requires forall c :: k <= c < n ==> x[c] == y[c]
    ensures BackRow(U, n, x, k) == BackRow(U, n, y, k)
  {
    DotRangeFrame(U[k], x, U[k], y, k + 1, n);
  }

  /** Rows i..n-1 are done: a skipped row has its unknown at 0, any other row
      is solved for its diagonal unknown from the unknowns after it. */
  predicate SolvedFrom(U: Matrix, n: nat, x: Vector, i: nat)
    requires IsAugmented(U, n) && |x| == n && i <= n
  {
    && (forall k :: i <= k < n && Skipped(U, k) ==> x[k] == 0.0)
    && (forall k :: i <= k < n && !Skipped(U, k) ==> BackRow(U, n, x, k) == U[k][n])
  }

  /** Setting x[i] to a value v that solves row i extends the solved rows by
      one: the rows below read only entries after their own diagonal. */
  lemma SolveRowBack(U: Matrix, n: nat, x: Vector, i: nat, v: real)
    requires IsAugmented(U, n) && |x| == n && i < n
    requires SolvedFrom(U, n, x, i + 1) && !Skipped(U, i)
    requires BackRow(U, n, x[i := v], i) == U[i][n]
    ensures SolvedFrom(U, n, x[i := v], i)
  {
    var x' := x[i := v];
    hide BackRow, Abs;
    forall k | i < k < n
      ensures BackRow(U, n, x', k) == BackRow(U, n, x, k)
    {
      BackRowFrame(U, n, x', x, k);
    }
  }

  /** Bottom-up back-substitution: a skipped row leaves x[i] at 0, any other
      row is solved for x[i] using the entries after it, which are final. */
  method BackSubstitution(U: Matrix, n: nat) returns (x: Vector)
    requires IsAugmented(U, n)
    ensures |x| == n
    ensures forall i :: 0 <= i < n && Skipped(U, i) ==> x[i] == 0.0
    ensures forall i :: 0 <= i < n && !Skipped(U, i) ==> U[i][i] * x[i] + DotRange(U[i], x, i + 1, n) == U[i][n]
  {
    x := Zeros(n);
    var i := n;
    while i > 0
      invariant 0 <= i <= n && |x| == n
      invariant forall k :: 0 <= k < i ==> x[k] == 0.0
      invariant SolvedFrom(U, n, x, i)
    {
      i := i - 1;
      if Abs(U[i][i]) < PivotTolerance {
        continue;
      }
      var s := DotRange(U[i], x, i + 1, n);
      var xi := (U[i][n] - s) / U[i][i];
      DivideBack(U[i][n] - s, U[i][i]);
      DotRangeFrame(U[i], x[i := xi], U[i], x, i + 1, n);
      SolveRowBack(U, n, x, i, xi);
      x := x[i := xi];
    }
  }

  /** Row i of an upper-triangular system: its equation reduces to the
      diagonal term plus the entries after it. */
  lemma TriangularRow(U: Matrix, n: nat, x: Vector, i: nat)
    requires IsAugmented(U, n) && UpperTriangular(U, n) && |x| == n && i < n
    ensures Dot(U[i], x) == U[i][i] * x[i] + DotRange(U[i], x, i + 1, n)
  {
    DotAroundDiagonal(U[i], x, i);
    DotRangeZero(U[i], x, 0, i);
  }

  /** For an upper-triangular system and a vector with the back-substitution
      properties, every equation holds exactly when every skipped equation does. */
  lemma BackSubstitutionSolves(U: Matrix, n: nat, x: Vector)
    requires IsAugmented(U, n) && UpperTriangular(U, n) && |x| == n
    requires BackSubstituted(U, n, x)
    ensures Solves(U, x) <==> SkippedRowsConsistent(U, n, x)
  {
    forall i | 0 <= i < n
      ensures Dot(U[i], x) == U[i][n] <==> (Skipped(U, i) ==> DotRange(U[i], x, i + 1, n) == U[i][n])
    {
      TriangularRow(U, n, x, i);
      if Skipped(U, i) {
        assert U[i][i] * x[i] == 0.0;
      }
    }
  }

  /** The inner loop of step i: rows i+1..n-1 in order, each reduced against
      row i when its diagonal entry is nonzero. */
  method EliminateBelow(S: Matrix, n: nat, i: nat) returns (M: Matrix)
    requires IsAugmented(S, n) && i < n
    ensures M == EliminateRows(S, n, i, n)
  {
    M := S;
    var j := i + 1;
    assert M == EliminateRows(S, n, i, j);
    while j < n
      invariant i + 1 <= j <= n
      invariant M == EliminateRows(S, n, i, j)
    {
      if M[i][i] != 0.0 {
        var factor := M[j][i] / M[i][i];
        assert factor == Multiplier(S[j][i], S[i][i]);
        M := M[j := SubtractMultiple(M[j], M[i], i, factor)];
      }
      assert M == EliminateRows(S, n, i, j + 1);
      j := j + 1;
    }
  }

  /** The outer loop: pivot selection, the swap when the pivot row is not
      row i, and the inner loop, for i = 0..n-1. */
  method ForwardElimination(M0: Matrix, n: nat) returns (M: Matrix)
    requires IsAugmented(M0, n)
    ensures M == ForwardPasses(M0, n, n)
  {
    hide EliminateRows, Multiplier, SubtractMultiple;
    M := M0;
    var i := 0;
    while i < n
      invariant 0 <= i <= n
      invariant M == ForwardPasses(M0, n, i)
    {
      var pivot := PivotRow(M, i, i);
      ghost var before := M;
      if pivot != i {
        M := SwapRows(M, i, pivot);
      }
      assert M == SwapRows(before, i, pivot);
      M := EliminateBelow(M, n, i);
      assert M == EliminationStep(before, n, i);
      i := i + 1;
    }
  }

  /** x is what back-substitution leaves for U: zero at every skipped row,
      and every other row solved for its diagonal unknown. */
  predicate BackSubstituted(U: Matrix, n: nat, x: Vector)
    requires IsAugmented(U, n) && |x| == n
  {
    SolvedFrom(U, n, x, 0)
  }

  /** Every skipped row of U holds at x (its diagonal term dropped). */
  predicate SkippedRowsConsistent(U: Matrix, n: nat, x: Vector)
    requires IsAugmented(U, n) && |x| == n
  {
    forall i :: 0 <= i < n && Skipped(U, i) ==> DotRange(U[i], x, i + 1, n) == U[i][n]
  }

  /** A back-substituted vector for the reduced system solves A.x == b exactly
      when every skipped row of the reduced system is consistent. */
  lemma ReducedSolution(A: Matrix, b: Vector, x: Vector)
    requires IsSquare(A, |b|) && |x| == |b|
    requires BackSubstituted(Reduce(A, b), |b|, x)
    ensures MatVec(A, x) == b <==> SkippedRowsConsistent(Reduce(A, b), |b|, x)
  {
    ReduceCorrect(A, b, x);
    var U := Reduce(A, b);
    hide EliminationStep, EliminateRows, Multiplier, SubtractMultiple, PivotRow, SwapRows, ForwardPasses, Reduce;
    BackSubstitutionSolves(U, |b|, x);
  }

  /** `gauss_elimination`: forward elimination with partial pivoting on
      [A | b] exactly as its loops run it, then back-substitution. x solves
      A.x == b exactly when every skipped row of the reduced system is
      consistent, in particular whenever no row is skipped. */
  method Solve(A: Matrix, b: Vector) returns (x: Vector)
    requires IsSquare(A, |b|)
    ensures |x| == |b|
    ensures BackSubstituted(Reduce(A, b), |b|, x)
    ensures MatVec(A, x) == b <==> SkippedRowsConsistent(Reduce(A, b), |b|, x)
    ensures (forall i :: 0 <= i < |b| ==> !Skipped(Reduce(A, b), i)) ==> MatVec(A, x) == b
  {
    hide EliminationStep, EliminateRows, Multiplier, SubtractMultiple, PivotRow, SwapRows, ForwardPasses, Augment,
      MatVec, Dot, DotRange, IsSquare, IsAugmented;
    var M := ForwardElimination(Augment(A, b), |b|);
    assert M == Reduce(A, b);
    x := BackSubstitution(M, |b|);
    hide Reduce;
    ReducedSolution(A, b, x);
  }
}
