/** The quality measure the network-flow solver reports for every method:
    the Euclidean norm of A.x - b. The model keeps its square, which is zero
    exactly when the norm is. */
module Residuals {
  import opened Vectors

  /** ||A.x - b||^2: never negative, and zero exactly when x solves the system. */
  function ResidualSq(A: Matrix, x: Vector, b: Vector): (r: real)
    requires IsSquare(A, |b|) && |x| == |b|
    ensures r >= 0.0
    ensures r == 0.0 <==> MatVec(A, x) == b
  {
    SubZero(MatVec(A, x), b);
    NormSq(Sub(MatVec(A, x), b))
  }
}
