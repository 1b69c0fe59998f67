/** The SVD route of the network-flow solver: given a factorisation
    A = U * diag(s) * Vh, the solution is Vh^T * (s_inv * (U^T * b)), where
    s_inv inverts the singular values above a tolerance and zeroes the rest.
    The factorisation itself is an input: the model states what the solver
    does with the three factors, and what that yields when they are a genuine
    singular value decomposition (U and Vh with orthonormal rows). */
module SvdTruncation {
  import opened Vectors

  /** Singular values at or below this are treated as zero. */
  const SingularTolerance: real := 0.0000000001

  predicate Kept(sigma: real)
  {
    sigma > SingularTolerance
  }

  /** One entry of s_inv. */
  function Reciprocal(sigma: real): (r: real)
    ensures r * sigma == (if Kept(sigma) then 1.0 else 0.0)
    ensures r != 0.0 <==> Kept(sigma)
    ensures 0.0 <= r < 10000000000.0
  {
    if Kept(sigma) then
      ReciprocalBound(sigma);
      1.0 / sigma
    else 0.0
  }

  /** The reciprocal of a value above the tolerance stays below 1 / tolerance. */
  lemma ReciprocalBound(sigma: real)
    requires Kept(sigma)
    ensures 0.0 < 1.0 / sigma < 10000000000.0
  {
    var r := 1.0 / sigma;
    assert r * sigma == 1.0;
    MulPositive(r, 10000000000.0 * sigma - 1.0);
    assert 10000000000.0 - r == r * (10000000000.0 * sigma - 1.0);
  }

  /** s_inv for a whole vector of singular values. */
  function TruncatedInverse(s: Vector): (r: Vector)
    ensures |r| == |s|
    ensures forall k :: 0 <= k < |s| ==> r[k] * s[k] == (if Kept(s[k]) then 1.0 else 0.0)
    ensures forall k :: 0 <= k < |s| ==> (r[k] != 0.0 <==> Kept(s[k]))
  {
    seq(|s|, k requires 0 <= k < |s| => Reciprocal(s[k]))
  }

  /** s_inv is a generalised inverse of diag(s): r s r == r always, and
      s r s == s exactly on the values that are kept or already zero. */
  lemma PseudoInverse(s: Vector, k: nat)
    requires k < |s|
    ensures TruncatedInverse(s)[k] * s[k] * TruncatedInverse(s)[k] == TruncatedInverse(s)[k]
    ensures s[k] * TruncatedInverse(s)[k] * s[k] == s[k] <==> Kept(s[k]) || s[k] == 0.0
  {
    var r := TruncatedInverse(s)[k];
    if Kept(s[k]) {
      assert r * s[k] == 1.0;
      assert r * s[k] * r == 1.0 * r;
      assert s[k] * r * s[k] == s[k] * (r * s[k]);
    } else {
      assert r == 0.0;
    }
  }

  /** The coordinates of b along the kept left singular directions; the
      dropped ones are zeroed. */
  function KeepCoordinates(s: Vector, c: Vector): (p: Vector)
    requires |s| == |c|
    ensures |p| == |c|
    ensures forall k :: 0 <= k < |c| ==> p[k] == (if Kept(s[k]) then c[k] else 0.0)
  {
    Mul(Mul(s, TruncatedInverse(s)), c)
  }

  /** The three factors have matching n-by-n shapes. */
  predicate SvdShape(U: Matrix, s: Vector, Vh: Matrix, n: nat)
  {
    IsSquare(U, n) && |s| == n && IsSquare(Vh, n)
  }

  /** Vh^T * (s_inv * (U^T * b)). */
  function SvdSolution(U: Matrix, s: Vector, Vh: Matrix, b: Vector): (x: Vector)
    requires SvdShape(U, s, Vh, |b|)
    ensures |x| == |b|
  {
    MatVec(Transpose(Vh), Mul(TruncatedInverse(s), MatVec(Transpose(U), b)))
  }

  /** The rows of Q are orthonormal: Q * Q^T is the identity. */
  predicate OrthonormalRows(Q: Matrix)
  {
    IsSquare(Q, |Q|) &&
    forall i, j :: 0 <= i < |Q| && 0 <= j < |Q| ==> Dot(Q[i], Q[j]) == if i == j then 1.0 else 0.0
  }

  /** u + f * q over the length of u. */
  function AddScaled(u: Vector, f: real, q: Vector): (v: Vector)
    requires |u| <= |q|
    ensures |v| == |u|
    ensures forall c :: 0 <= c < |u| ==> v[c] == u[c] + f * q[c]
  {
    seq(|u|, c requires 0 <= c < |u| => u[c] + f * q[c])
  }

  /** The sum of w[k] * Q[k] over the first m rows of Q. */
  function Combine(Q: Matrix, w: Vector, m: nat): (v: Vector)
    requires IsSquare(Q, |Q|) && m <= |Q| && m <= |w|
    ensures |v| == |Q|
  {
    if m == 0 then Zeros(|Q|) else AddScaled(Combine(Q, w, m - 1), w[m - 1], Q[m - 1])
  }

  /** A = U * diag(s) * Vh, row by row: row i of A is the sum over k of
      U[i][k] * s[k] * Vh[k]. */
  predicate Factorises(A: Matrix, U: Matrix, s: Vector, Vh: Matrix)
  {
    SvdShape(U, s, Vh, |A|) && IsSquare(A, |A|) &&
    forall i :: 0 <= i < |A| ==> A[i] == Combine(Vh, Mul(U[i], s), |A|)
  }

  /** Entry c of a combination of rows is the sum down column c. */
  lemma {:induction false} CombineEntry(Q: Matrix, w: Vector, m: nat, c: nat)
    requires IsSquare(Q, |Q|) && m <= |Q| && m <= |w| && c < |Q|
    ensures Combine(Q, w, m)[c] == DotRange(Transpose(Q)[c], w, 0, m)
  {
    if m > 0 {
      CombineEntry(Q, w, m - 1, c);
      var T := Transpose(Q);
      DotRangeSplit(T[c], w, 0, m - 1, m);
      assert T[c][m - 1] == Q[m - 1][c];
    }
  }

  /** Q^T * d is the combination of the rows of Q with weights d. */
  lemma TransposeApply(Q: Matrix, d: Vector)
    requires IsSquare(Q, |Q|) && |d| == |Q|
    ensures MatVec(Transpose(Q), d) == Combine(Q, d, |Q|)
  {
    var T := Transpose(Q);
    forall c | 0 <= c < |Q|
      ensures MatVec(T, d)[c] == Combine(Q, d, |Q|)[c]
    {
      CombineEntry(Q, d, |Q|, c);
    }
  }

  /** Adding w[m-1] * Q[m-1] to the combination adds w[m-1] * (Q[m-1] . v)
      to its dot product with v. */
  lemma CombineDotStep(Q: Matrix, w: Vector, m: nat, v: Vector)
    requires IsSquare(Q, |Q|) && 0 < m <= |Q| && m <= |w| && |v| == |Q|
    ensures Dot(Combine(Q, w, m), v) == Dot(Combine(Q, w, m - 1), v) + w[m - 1] * Dot(Q[m - 1], v)
  {
    var prev, next := Combine(Q, w, m - 1), Combine(Q, w, m);
    assert next == AddScaled(prev, w[m - 1], Q[m - 1]);
    hide Combine, IsSquare;
    DotRangeAddScaled(prev, Q[m - 1], next, v, w[m - 1], 0, |v|);
  }

  /** Dotting a combination of rows with v combines the dot products Q[k] . v. */
  lemma {:induction false} CombineDot(Q: Matrix, w: Vector, m: nat, v: Vector)
    requires IsSquare(Q, |Q|) && m <= |Q| && m <= |w| && |v| == |Q|
    ensures Dot(Combine(Q, w, m), v) == DotRange(w, MatVec(Q, v), 0, m)
  {
    if m > 0 {
      CombineDot(Q, w, m - 1, v);
      CombineDotStep(Q, w, m, v);
      var e := MatVec(Q, v);
      hide Combine, AddScaled, IsSquare;
      DotRangeSplit(w, e, 0, m - 1, m);
      assert DotRange(w, e, m - 1, m) == w[m - 1] * e[m - 1];
    } else {
      DotRangeZero(Zeros(|Q|), v, 0, |v|);
    }
  }

  /** For Q with orthonormal rows, Q * (Q^T * d) == d. */
  lemma OrthonormalRoundTrip(Q: Matrix, d: Vector)
    requires OrthonormalRows(Q) && |d| == |Q|
    ensures MatVec(Q, MatVec(Transpose(Q), d)) == d
  {
    var n := |Q|;
    TransposeApply(Q, d);
    var v := Combine(Q, d, n);
    forall i | 0 <= i < n
      ensures Dot(Q[i], v) == d[i]
    {
      var e := MatVec(Q, Q[i]);
      CombineDot(Q, d, n, Q[i]);
      DotRangePointwise(v, Q[i], Q[i], v, 0, n);
      DotRangeUnit(d, e, i, 0, n);
    }
  }

  /** Row i of A * x, for A = U * diag(s) * Vh, is the i-th row of U times
      diag(s) times the coordinates Vh * x. */
  lemma FactorApply(A: Matrix, U: Matrix, s: Vector, Vh: Matrix, x: Vector, i: nat)
    requires Factorises(A, U, s, Vh) && |x| == |A| && i < |A|
    ensures MatVec(A, x)[i] == DotRange(Mul(U[i], s), MatVec(Vh, x), 0, |A|)
  {
    CombineDot(Vh, Mul(U[i], s), |A|, x);
  }

  /** (a * s) * (r * c) == a * c once r * s == 1. */
  lemma CancelSingular(a: real, sigma: real, r: real, c: real)
    requires r * sigma == 1.0
    ensures (a * sigma) * (r * c) == a * c
  {
    calc {
      (a * sigma) * (r * c);
      (a * c) * (r * sigma);
      a * c;
    }
  }

  /** The solution's coordinates along the right singular directions are
      s_inv * (U^T * b): each kept direction solves s[k] * z[k] == (U^T b)[k],
      and the solution has no component along a dropped direction. */
  lemma SolutionCoordinates(U: Matrix, s: Vector, Vh: Matrix, b: Vector)
    requires SvdShape(U, s, Vh, |b|) && OrthonormalRows(Vh)
    ensures var z, c := MatVec(Vh, SvdSolution(U, s, Vh, b)), MatVec(Transpose(U), b);
      forall k :: 0 <= k < |b| ==>
        s[k] * z[k] == (if Kept(s[k]) then c[k] else 0.0) &&
        (!Kept(s[k]) ==> z[k] == 0.0)
  {
    var z, c := MatVec(Vh, SvdSolution(U, s, Vh, b)), MatVec(Transpose(U), b);
    var r := TruncatedInverse(s);
    OrthonormalRoundTrip(Vh, Mul(r, c));
    assert z == Mul(r, c);
    forall k | 0 <= k < |b|
      ensures s[k] * z[k] == (if Kept(s[k]) then c[k] else 0.0)
    {
      assert s[k] * z[k] == (r[k] * s[k]) * c[k];
    }
  }

  /** Term by term, (u * s) * (s_inv * c) is u times the kept part of c. */
  lemma KeptTerms(u: Vector, s: Vector, c: Vector)
    requires |u| == |s| == |c|
    ensures forall k :: 0 <= k < |u| ==>
      Mul(u, s)[k] * Mul(TruncatedInverse(s), c)[k] == u[k] * KeepCoordinates(s, c)[k]
  {
    var r := TruncatedInverse(s);
    forall k | 0 <= k < |u|
      ensures Mul(u, s)[k] * Mul(r, c)[k] == u[k] * KeepCoordinates(s, c)[k]
    {
      if Kept(s[k]) {
        CancelSingular(u[k], s[k], r[k], c[k]);
      }
    }
  }

  /** One row of the residual identity, given the coordinates z == s_inv * c. */
  lemma ResidualRow(A: Matrix, U: Matrix, s: Vector, Vh: Matrix, x: Vector, c: Vector, i: nat)
    requires Factorises(A, U, s, Vh) && |x| == |A| && |c| == |A| && i < |A|
    requires MatVec(Vh, x) == Mul(TruncatedInverse(s), c)
    ensures MatVec(A, x)[i] == Dot(U[i], KeepCoordinates(s, c))
  {
    FactorApply(A, U, s, Vh, x, i);
    KeptTerms(U[i], s, c);
    DotRangePointwise(Mul(U[i], s), Mul(TruncatedInverse(s), c), U[i], KeepCoordinates(s, c), 0, |A|);
  }

  /** What the truncated solution achieves: A * x is b projected onto the
      kept left singular directions, U * keep(U^T * b). */
  lemma SolutionResidual(A: Matrix, U: Matrix, s: Vector, Vh: Matrix, b: Vector)
    requires Factorises(A, U, s, Vh) && OrthonormalRows(Vh) && |b| == |A|
    ensures MatVec(A, SvdSolution(U, s, Vh, b)) == MatVec(U, KeepCoordinates(s, MatVec(Transpose(U), b)))
  {
    var x, c, r := SvdSolution(U, s, Vh, b), MatVec(Transpose(U), b), TruncatedInverse(s);
    OrthonormalRoundTrip(Vh, Mul(r, c));
    forall i | 0 <= i < |A|
      ensures MatVec(A, x)[i] == Dot(U[i], KeepCoordinates(s, c))
    {
      ResidualRow(A, U, s, Vh, x, c, i);
    }
  }

  /** With every singular value kept and genuine orthonormal factors, the
      SVD route solves the system exactly. */
  lemma FullRankSolves(A: Matrix, U: Matrix, s: Vector, Vh: Matrix, b: Vector)
    requires Factorises(A, U, s, Vh) && OrthonormalRows(U) && OrthonormalRows(Vh) && |b| == |A|
    requires forall k :: 0 <= k < |s| ==> Kept(s[k])
    ensures MatVec(A, SvdSolution(U, s, Vh, b)) == b
  {
    var c := MatVec(Transpose(U), b);
    SolutionResidual(A, U, s, Vh, b);
    assert KeepCoordinates(s, c) == c;
    OrthonormalRoundTrip(U, b);
  }
}
