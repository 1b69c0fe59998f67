/** Dense real vectors and matrices, exact arithmetic: the small amount of
    linear algebra (dot products, matrix-vector product, squared norm) that the
    elimination and iterative solvers and the residual computation rely on. */
module Vectors {

  type Vector = seq<real>
  type Matrix = seq<seq<real>>

  function Abs(r: real): (a: real)
    ensures a >= 0.0
    ensures a == r || a == -r
  {
    if r < 0.0 then -r else r
  }

  /** An n-by-n matrix. */
  predicate IsSquare(A: Matrix, n: nat)
  {
    |A| == n && forall r :: 0 <= r < n ==> |A[r]| == n
  }

  /** The all-zero vector of length n. */
  function Zeros(n: nat): (z: Vector)
    ensures |z| == n
    ensures forall k :: 0 <= k < n ==> z[k] == 0.0
  {
    seq(n, _ => 0.0)
  }

  /** Sum of u[c] * v[c] for c in [lo, hi). */
  function DotRange(u: Vector, v: Vector, lo: nat, hi: nat): real
    requires lo <= hi <= |u| && hi <= |v|
    decreases hi - lo
  {
    if lo == hi then 0.0 else u[lo] * v[lo] + DotRange(u, v, lo + 1, hi)
  }

  /** Dot product of v with the first |v| entries of u (u may carry an
      augmented right-hand side after them). */
  function Dot(u: Vector, v: Vector): real
    requires |v| <= |u|
  {
    DotRange(u, v, 0, |v|)
  }

  function MatVec(A: Matrix, x: Vector): (y: Vector)
    requires forall r :: 0 <= r < |A| ==> |x| <= |A[r]|
    ensures |y| == |A|
    ensures forall r :: 0 <= r < |A| ==> y[r] == Dot(A[r], x)
  {
    seq(|A|, r requires 0 <= r < |A| => Dot(A[r], x))
  }

  function Sub(u: Vector, v: Vector): (w: Vector)
    requires |u| == |v|
    ensures |w| == |u|
    ensures forall k :: 0 <= k < |u| ==> w[k] == u[k] - v[k]
  {
    seq(|u|, k requires 0 <= k < |u| => u[k] - v[k])
  }

  function Sq(r: real): real
  {
    r * r
  }

  /** A nonzero real has a positive square. The two `calc` chains keep the
      solver away from rewriting the square before it is used. */
  lemma SqPositive(r: real)
    requires r != 0.0
    ensures Sq(r) > 0.0
  {
    if r > 0.0 {
      calc { Sq(r); r * r; > 0.0; }
    } else {
      calc { Sq(r); r * r; (-r) * (-r); > 0.0; }
    }
  }

  lemma SqNonnegative(r: real)
    ensures Sq(r) >= 0.0
  {
    if r != 0.0 {
      SqPositive(r);
    }
  }

  lemma MulNonnegative(p: real, q: real)
    requires p >= 0.0 && q >= 0.0
    ensures p * q >= 0.0
  {
  }

  lemma MulPositive(p: real, q: real)
    requires p > 0.0 && q > 0.0
    ensures p * q > 0.0
  {
  }

  /** Squaring is strictly increasing on the nonnegative reals. */
  lemma SqMonotone(a: real, c: real)
    requires 0.0 <= a < c
    ensures Sq(a) < Sq(c)
  {
    calc {
      Sq(a);
      a * a;
      <= { MulNonnegative(a, c - a); assert a * c - a * a == a * (c - a); }
      a * c;
      < { MulPositive(c, c - a); assert c * c - a * c == c * (c - a); }
      c * c;
      Sq(c);
    }
  }

  /** The square of a product is the product of the squares. */
  lemma SqProduct(p: real, q: real)
    ensures Sq(p * q) == Sq(p) * Sq(q)
  {
    calc {
      Sq(p * q);
      (p * q) * (p * q);
      (p * p) * (q * q);
      Sq(p) * Sq(q);
    }
  }

  /** Squared Euclidean norm. */
  function NormSq(v: Vector): (s: real)
    ensures s >= 0.0
  {
    if |v| == 0 then 0.0
    else
      SqNonnegative(v[0]);
      Sq(v[0]) + NormSq(v[1..])
  }

  /** The squared norm is positive as soon as one entry is nonzero. */
  lemma {:induction false} NormSqPositive(v: Vector, k: nat)
    requires k < |v| && v[k] != 0.0
    ensures NormSq(v) > 0.0
  {
    if k == 0 {
      SqPositive(v[0]);
    } else {
      assert v[1..][k - 1] == v[k];
      NormSqPositive(v[1..], k - 1);
      SqNonnegative(v[0]);
    }
  }

  /** The squared norm vanishes exactly on the zero vector. */
  lemma {:induction false} NormSqZero(v: Vector)
    ensures NormSq(v) == 0.0 <==> forall k :: 0 <= k < |v| ==> v[k] == 0.0
  {
    if forall k :: 0 <= k < |v| ==> v[k] == 0.0 {
      if |v| > 0 {
        assert forall k :: 0 <= k < |v| - 1 ==> v[1..][k] == v[k + 1];
        NormSqZero(v[1..]);
        assert Sq(v[0]) == 0.0;
      }
    } else {
      var k :| 0 <= k < |v| && v[k] != 0.0;
      NormSqPositive(v, k);
    }
  }

  /** The difference of two equal-length vectors is zero exactly when they are equal. */
  lemma SubZero(u: Vector, v: Vector)
    requires |u| == |v|
    ensures NormSq(Sub(u, v)) == 0.0 <==> u == v
  {
    NormSqZero(Sub(u, v));
    if NormSq(Sub(u, v)) == 0.0 {
      assert forall k :: 0 <= k < |u| ==> u[k] == v[k] by {
        forall k | 0 <= k < |u|
          ensures u[k] == v[k]
        {
          assert Sub(u, v)[k] == 0.0;
        }
      }
    }
  }

  /** DotRange reads only the entries inside its range. */
  lemma {:induction false} DotRangeFrame(u: Vector, v: Vector, u': Vector, v': Vector, lo: nat, hi: nat)
    requires lo <= hi <= |u| && hi <= |v| && hi <= |u'| && hi <= |v'|
    requires forall c :: lo <= c < hi ==> u[c] == u'[c] && v[c] == v'[c]
    ensures DotRange(u, v, lo, hi) == DotRange(u', v', lo, hi)
    decreases hi - lo
  {
    if lo < hi {
      DotRangeFrame(u, v, u', v', lo + 1, hi);
    }
  }

  /** Splitting a range at mid splits the sum. */
  lemma {:induction false} DotRangeSplit(u: Vector, v: Vector, lo: nat, mid: nat, hi: nat)
    requires lo <= mid <= hi <= |u| && hi <= |v|
    ensures DotRange(u, v, lo, hi) == DotRange(u, v, lo, mid) + DotRange(u, v, mid, hi)
    decreases mid - lo
  {
    if lo < mid {
      DotRangeSplit(u, v, lo + 1, mid, hi);
    }
  }

  /** A range over which u is zero contributes nothing. */
  lemma {:induction false} DotRangeZero(u: Vector, v: Vector, lo: nat, hi: nat)
    requires lo <= hi <= |u| && hi <= |v|
    requires forall c :: lo <= c < hi ==> u[c] == 0.0
    ensures DotRange(u, v, lo, hi) == 0.0
    decreases hi - lo
  {
    if lo < hi {
      DotRangeZero(u, v, lo + 1, hi);
    }
  }

  /** Linearity in the first argument: if w = u - f*v on the range, the sums agree. */
  lemma {:induction false} DotRangeLinear(u: Vector, v: Vector, w: Vector, x: Vector, f: real, lo: nat, hi: nat)
    requires lo <= hi <= |u| && hi <= |v| && hi <= |w| && hi <= |x|
    requires forall c :: lo <= c < hi ==> w[c] == u[c] - f * v[c]
    ensures DotRange(w, x, lo, hi) == DotRange(u, x, lo, hi) - f * DotRange(v, x, lo, hi)
    decreases hi - lo
  {
    if lo < hi {
      DotRangeLinear(u, v, w, x, f, lo + 1, hi);
      calc {
        DotRange(w, x, lo, hi);
        w[lo] * x[lo] + DotRange(w, x, lo + 1, hi);
        (u[lo] - f * v[lo]) * x[lo] + DotRange(u, x, lo + 1, hi) - f * DotRange(v, x, lo + 1, hi);
        { assert (u[lo] - f * v[lo]) * x[lo] == u[lo] * x[lo] - f * (v[lo] * x[lo]); }
        u[lo] * x[lo] + DotRange(u, x, lo + 1, hi) - f * (v[lo] * x[lo] + DotRange(v, x, lo + 1, hi));
      }
    }
  }

  /** Linearity for a sum: if w = u + f*v on the range, the sums add up likewise. */
  lemma {:induction false} DotRangeAddScaled(u: Vector, v: Vector, w: Vector, x: Vector, f: real, lo: nat, hi: nat)
    requires lo <= hi <= |u| && hi <= |v| && hi <= |w| && hi <= |x|
    requires forall c :: lo <= c < hi ==> w[c] == u[c] + f * v[c]
    ensures DotRange(w, x, lo, hi) == DotRange(u, x, lo, hi) + f * DotRange(v, x, lo, hi)
    decreases hi - lo
  {
    if lo < hi {
      DotRangeAddScaled(u, v, w, x, f, lo + 1, hi);
      assert (u[lo] + f * v[lo]) * x[lo] == u[lo] * x[lo] + f * (v[lo] * x[lo]);
    }
  }

  /** Row k of A.x separated into the part before the diagonal, the diagonal
      term and the part after it. */
  lemma DotAroundDiagonal(u: Vector, x: Vector, k: nat)
    requires k < |x| <= |u|
    ensures Dot(u, x) == DotRange(u, x, 0, k) + u[k] * x[k] + DotRange(u, x, k + 1, |x|)
  {
    DotRangeSplit(u, x, 0, k, |x|);
  }

  /** Entrywise product of two equal-length vectors. */
  function Mul(u: Vector, v: Vector): (w: Vector)
    requires |u| == |v|
    ensures |w| == |u|
    ensures forall k :: 0 <= k < |u| ==> w[k] == u[k] * v[k]
  {
    seq(|u|, k requires 0 <= k < |u| => u[k] * v[k])
  }

  function Transpose(Q: Matrix): (T: Matrix)
    requires IsSquare(Q, |Q|)
    ensures IsSquare(T, |Q|)
    ensures forall i, j :: 0 <= i < |Q| && 0 <= j < |Q| ==> T[i][j] == Q[j][i]
  {
    seq(|Q|, i requires 0 <= i < |Q| => seq(|Q|, j requires 0 <= j < |Q| => Q[j][i]))
  }

  /** Two sums whose terms agree one by one are equal. */
  lemma {:induction false} DotRangePointwise(u: Vector, v: Vector, u': Vector, v': Vector, lo: nat, hi: nat)
    requires lo <= hi <= |u| && hi <= |v| && hi <= |u'| && hi <= |v'|
    requires forall c :: lo <= c < hi ==> u[c] * v[c] == u'[c] * v'[c]
    ensures DotRange(u, v, lo, hi) == DotRange(u', v', lo, hi)
    decreases hi - lo
  {
    if lo < hi {
      DotRangePointwise(u, v, u', v', lo + 1, hi);
    }
  }

  /** Summing against a unit vector picks out one entry. */
  lemma {:induction false} DotRangeUnit(u: Vector, e: Vector, i: nat, lo: nat, hi: nat)
    requires lo <= hi <= |u| && hi <= |e|
    requires forall c :: lo <= c < hi ==> e[c] == if c == i then 1.0 else 0.0
    ensures DotRange(u, e, lo, hi) == if lo <= i < hi then u[i] else 0.0
    decreases hi - lo
  {
    if lo < hi {
      DotRangeUnit(u, e, i, lo + 1, hi);
    }
  }
}
