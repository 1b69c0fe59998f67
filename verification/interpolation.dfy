/** Polynomial interpolation of sampled data (x[i], y[i]) at a query point t,
    in exact real arithmetic: Newton's divided-difference table, evaluation of
    the Newton form by a running product, and Neville's tableau. The central
    theorem is that the Newton and Neville values coincide for every input
    with pairwise distinct nodes, and both reproduce y[k] at the node x[k]. */
module Interpolation {

  // Proofs here begin with `hide DifferenceQuotient, NevilleCombine` (and
  // other definitions they do not unfold). Both are quotients of products
  // of reals; left visible, they make every obligation nonlinear. The
  // contracts of a hidden function stay visible.

  /** Every divided-difference and Neville denominator x[i] - x[j] is nonzero. */
  predicate DistinctNodes(x: seq<real>)
  {
    forall i, j :: 0 <= i < j < |x| ==> NodeGap(x, i, j) != 0.0
  }

  /** x[j] - x[i]: every denominator the two methods divide by. */
  function NodeGap(x: seq<real>, i: nat, j: nat): real
    requires i < |x| && j < |x|
  {
    x[j] - x[i]
  }

  lemma NodesDiffer(x: seq<real>, i: nat, j: nat)
    requires DistinctNodes(x) && i < |x| && j < |x| && i != j
    ensures x[i] != x[j]
  {
    if i < j {
      assert NodeGap(x, i, j) != 0.0;
    } else {
      assert NodeGap(x, j, i) != 0.0;
    }
  }

  /** As many sample values as nodes, and no node repeated. */
  predicate ValidData(x: seq<real>, y: seq<real>)
  {
    |x| == |y| && DistinctNodes(x)
  }

  /** The difference quotient of two neighbouring divided differences over
      the span [xlo, xhi] they jointly cover. */
  function DifferenceQuotient(lower: real, upper: real, xlo: real, xhi: real): real
    requires xlo != xhi
  {
    (upper - lower) / (xhi - xlo)
  }

  /** Neville's combination of the values a (nodes xi..) and b (..xj) of two
      overlapping interpolants into the value of the one on their union. */
  function NevilleCombine(t: real, xi: real, xj: real, a: real, b: real): real
    requires xi != xj
  {
    ((t - xj) * a - (t - xi) * b) / (xi - xj)
  }

  /** The divided difference f[x_i, ..., x_{i+k}] of the k+1 consecutive
      nodes starting at i, by its classical recursion. */
  function DividedDifference(x: seq<real>, y: seq<real>, i: nat, k: nat): real
    requires ValidData(x, y) && i + k < |x|
    decreases k
  {
    if k == 0 then y[i]
    else
      assert NodeGap(x, i, i + k) != 0.0;
      DifferenceQuotient(DividedDifference(x, y, i, k - 1), DividedDifference(x, y, i + 1, k - 1), x[i], x[i + k])
  }

  /** The product of (t - x[m]) for m in [lo, hi). */
  function NodeProduct(x: seq<real>, t: real, lo: nat, hi: nat): real
    requires lo <= hi <= |x|
    decreases hi - lo
  {
    if lo == hi then 1.0 else NodeProduct(x, t, lo, hi - 1) * (t - x[hi - 1])
  }

  /** The same product, peeled from the low end. */
  lemma {:induction false} NodeProductFront(x: seq<real>, t: real, lo: nat, hi: nat)
    requires lo < hi <= |x|
    ensures NodeProduct(x, t, lo, hi) == (t - x[lo]) * NodeProduct(x, t, lo + 1, hi)
    decreases hi - lo
  {
    if hi > lo + 1 {
      NodeProductFront(x, t, lo, hi - 1);
      assert NodeProduct(x, t, lo, hi) == NodeProduct(x, t, lo, hi - 1) * (t - x[hi - 1]);
      assert NodeProduct(x, t, lo + 1, hi) == NodeProduct(x, t, lo + 1, hi - 1) * (t - x[hi - 1]);
      Associate(t - x[lo], NodeProduct(x, t, lo + 1, hi - 1), t - x[hi - 1]);
    }
  }

  lemma ScaleEqual(c: real, p: real, q: real)
    requires p == q
    ensures c * p == c * q
  {
  }

  lemma Associate(u: real, p: real, q: real)
    ensures (u * p) * q == u * (p * q)
  {
  }

  /** The product vanishes when t is one of its nodes. */
  lemma {:induction false} NodeProductAtNode(x: seq<real>, t: real, lo: nat, hi: nat, k: nat)
    requires lo <= k < hi <= |x| && t == x[k]
    ensures NodeProduct(x, t, lo, hi) == 0.0
    decreases hi - lo
  {
    if k < hi - 1 {
      NodeProductAtNode(x, t, lo, hi - 1, k);
    }
  }

  // ---------------------------------------------------------------------
  // Newton form

  /** Newton form of the block of nodes i..i+k, built from the left:
      sum over m <= k of f[x_i..x_{i+m}] * (t - x_i) ... (t - x_{i+m-1}). */
  function NewtonLeft(x: seq<real>, y: seq<real>, t: real, i: nat, k: nat): real
    requires ValidData(x, y) && i + k < |x|
    decreases k
  {
    if k == 0 then y[i]
    else NewtonLeft(x, y, t, i, k - 1) + DividedDifference(x, y, i, k) * NodeProduct(x, t, i, i + k)
  }

  /** Newton form of the same block with the nodes taken from the right end:
      the last k nodes first, then x_i. */
  function NewtonRight(x: seq<real>, y: seq<real>, t: real, i: nat, k: nat): real
    requires ValidData(x, y) && i + k < |x|
    decreases k
  {
    if k == 0 then y[i]
    else NewtonRight(x, y, t, i + 1, k - 1) + DividedDifference(x, y, i, k) * NodeProduct(x, t, i + 1, i + k + 1)
  }

  /** sum over i < m of c[i] * (t - x_0) ... (t - x_{i-1}): the value the
      running-product loop accumulates from the first m coefficients. */
  function NewtonSum(x: seq<real>, c: seq<real>, t: real, m: nat): real
    requires m <= |c| && m <= |x| + 1
  {
    if m == 0 then 0.0 else NewtonSum(x, c, t, m - 1) + c[m - 1] * NodeProduct(x, t, 0, m - 1)
  }

  /** One pass j of the table: entries j.. are replaced by the difference
      quotient of themselves and their left neighbour, computed from the
      entries as they were before the pass; the prefix is left alone. */
  function DifferencePass(x: seq<real>, c: seq<real>, j: nat): (r: seq<real>)
    requires |c| == |x| && DistinctNodes(x) && 1 <= j
    ensures |r| == |c|
    ensures forall k :: 0 <= k < j && k < |c| ==> r[k] == c[k]
  {
    seq(|c|, k requires 0 <= k < |c| =>
      if k < j then c[k] else assert NodeGap(x, k - j, k) != 0.0; DifferenceQuotient(c[k - 1], c[k], x[k - j], x[k]))
  }

  /** Entry k of the table after p passes: final (f[x_0..x_k]) below p, and
      the divided difference of the p+1 nodes ending at x[k] from p on. */
  function TableEntry(x: seq<real>, y: seq<real>, k: nat, p: nat): real
    requires ValidData(x, y) && k < |x|
  {
    if k < p then DividedDifference(x, y, 0, k) else DividedDifference(x, y, k - p, p)
  }

  /** Pass j turns the divided differences of j nodes ending at x[k-1] and
      x[k] into the one of the j+1 nodes ending at x[k]. */
  lemma DifferencePassEntry(x: seq<real>, y: seq<real>, c: seq<real>, j: nat, k: nat)
    requires ValidData(x, y) && |c| == |x| && 1 <= j <= k < |x|
    requires c[k] == TableEntry(x, y, k, j - 1) && c[k - 1] == TableEntry(x, y, k - 1, j - 1)
    ensures DifferencePass(x, c, j)[k] == TableEntry(x, y, k, j)
  {
    hide DifferenceQuotient, NevilleCombine;
    var i := k - j;
    assert i + 1 == k - (j - 1) && i == k - 1 - (j - 1) && i + j == k;
  }

  /** The divided-difference coefficients: after the passes 1..n-1 entry k
      holds f[x_0..x_k]. Entry 0 is y[0] and entry 1 is the first slope. */
  method NewtonDividedDiff(x: seq<real>, y: seq<real>) returns (coef: seq<real>)
    requires ValidData(x, y)
    ensures |coef| == |y|
    ensures forall k :: 0 <= k < |coef| ==> coef[k] == DividedDifference(x, y, 0, k)
    ensures |y| >= 1 ==> coef[0] == y[0]
    ensures |y| >= 2 ==> coef[1] * (x[1] - x[0]) == y[1] - y[0]
  {
    hide DifferenceQuotient, NevilleCombine;
    if |y| >= 2 {
      NodesDiffer(x, 0, 1);
      QuotientStep(y[0], y[1], x[0], x[1]);
    }
    var n := |x|;
    coef := y;
    var j := 1;
    while j < n
      invariant 1 <= j && (n >= 1 ==> j <= n)
      invariant |coef| == n
      // j - 1 passes done: the first j - 1 entries are final, entry k >= j - 1
      // holds the divided difference of the j nodes ending at x[k]
      invariant forall k :: 0 <= k < n ==> coef[k] == TableEntry(x, y, k, j - 1)
    {
      var next := DifferencePass(x, coef, j);
      forall k | 0 <= k < n
        ensures next[k] == TableEntry(x, y, k, j)
      {
        if k >= j {
          DifferencePassEntry(x, y, coef, j, k);
        }
      }
      coef := next;
      j := j + 1;
    }
    forall k | 0 <= k < n
      ensures coef[k] == DividedDifference(x, y, 0, k)
    {
      assert coef[k] == TableEntry(x, y, k, n - 1);
    }
  }

  /** Evaluation by `newton_interpolation`'s loop: a running product of (t - x[i-1])
      times the next coefficient. Its value is the Newton sum, and it is
      coef[0] when there is one coefficient or when t is the first node. */
  method NewtonInterpolation(x: seq<real>, coef: seq<real>, t: real) returns (result: real)
    requires 1 <= |coef| <= |x| + 1
    ensures result == NewtonSum(x, coef, t, |coef|)
    ensures (|coef| == 1 || (|x| >= 1 && t == x[0])) ==> result == coef[0]
  {
    var n := |coef|;
    result := coef[0];
    var product := 1.0;
    var i := 1;
    while i < n
      invariant 1 <= i <= n
      invariant product == NodeProduct(x, t, 0, i - 1)
      invariant result == NewtonSum(x, coef, t, i)
      invariant |x| >= 1 && t == x[0] ==> result == coef[0]
    {
      product := product * (t - x[i - 1]);
      if |x| >= 1 && t == x[0] {
        NodeProductAtNode(x, t, 0, i, 0);
      }
      result := result + coef[i] * product;
      i := i + 1;
    }
  }

  /** With the divided differences as coefficients, the Newton sum over the
      first m coefficients is the left Newton form of nodes 0..m-1. */
  lemma {:induction false} NewtonSumIsNewtonForm(x: seq<real>, y: seq<real>, c: seq<real>, t: real, m: nat)
    requires ValidData(x, y) && 1 <= m <= |x| && |c| == |x|
    requires forall k :: 0 <= k < |c| ==> c[k] == DividedDifference(x, y, 0, k)
    ensures NewtonSum(x, c, t, m) == NewtonLeft(x, y, t, 0, m - 1)
  {
    hide DifferenceQuotient, NevilleCombine;
    if m > 1 {
      NewtonSumIsNewtonForm(x, y, c, t, m - 1);
      assert c[m - 1] == DividedDifference(x, y, 0, m - 1);
      assert NewtonSum(x, c, t, m) == NewtonSum(x, c, t, m - 1) + c[m - 1] * NodeProduct(x, t, 0, m - 1);
    } else {
      assert NewtonSum(x, c, t, 1) == c[0] * NodeProduct(x, t, 0, 0);
    }
  }

  // ---------------------------------------------------------------------
  // Neville tableau

  /** Q[i][j] of Neville's tableau: the value at t of the interpolant of the
      nodes i..i+j. */
  function NevilleCell(x: seq<real>, y: seq<real>, t: real, i: nat, j: nat): real
    requires ValidData(x, y) && i + j < |x|
    decreases j
  {
    if j == 0 then y[i]
    else
      assert NodeGap(x, i, i + j) != 0.0;
      NevilleCombine(t, x[i], x[i + j], NevilleCell(x, y, t, i, j - 1), NevilleCell(x, y, t, i + 1, j - 1))
  }

  /** The tableau after column j has been filled for the rows below i
      (earlier columns complete): filled cells hold NevilleCell, every
      other cell still holds the 0 it was created with. */
  ghost predicate TableauFilled(Q: seq<seq<real>>, x: seq<real>, y: seq<real>, t: real, j: nat, i: nat)
    requires ValidData(x, y)
  {
    var n := |x|;
    && |Q| == n
    && (forall r :: 0 <= r < n ==> |Q[r]| == n)
    && forall r, c :: 0 <= r < n && 0 <= c < n ==>
         Q[r][c] == (if r + c < n && (c < j || (c == j && r < i)) then NevilleCell(x, y, t, r, c) else 0.0)
  }

  lemma CombineFormula(t: real, xi: real, xj: real, a: real, b: real)
    requires xi != xj
    ensures NevilleCombine(t, xi, xj, a, b) == ((t - xj) * a - (t - xi) * b) / (xi - xj)
  {
  }

  /** Neville's recurrence applied to the two cells of the previous column. */
  lemma NevilleStep(x: seq<real>, y: seq<real>, t: real, i: nat, j: nat, a: real, b: real)
    requires ValidData(x, y) && 1 <= j && i + j < |x|
    requires a == NevilleCell(x, y, t, i, j - 1) && b == NevilleCell(x, y, t, i + 1, j - 1)
    ensures x[i] != x[i + j]
    ensures ((t - x[i + j]) * a - (t - x[i]) * b) / (x[i] - x[i + j]) == NevilleCell(x, y, t, i, j)
  {
    hide DifferenceQuotient, NevilleCombine;
    NodesDiffer(x, i, i + j);
    assert NevilleCell(x, y, t, i, j) == NevilleCombine(t, x[i], x[i + j], a, b);
    CombineFormula(t, x[i], x[i + j], a, b);
  }

  lemma TableauCellRead(Q: seq<seq<real>>, x: seq<real>, y: seq<real>, t: real, j: nat, i: nat, r: nat, c: nat)
    requires ValidData(x, y) && TableauFilled(Q, x, y, t, j, i)
    requires r + c < |x| && (c < j || (c == j && r < i))
    ensures Q[r][c] == NevilleCell(x, y, t, r, c)
  {
    hide DifferenceQuotient, NevilleCombine;
  }

  lemma TableauWrite(Q: seq<seq<real>>, x: seq<real>, y: seq<real>, t: real, j: nat, i: nat, v: real)
    requires ValidData(x, y) && TableauFilled(Q, x, y, t, j, i)
    requires 1 <= j && i + j < |x| && v == NevilleCell(x, y, t, i, j)
    ensures TableauFilled(Q[i := Q[i][j := v]], x, y, t, j, i + 1)
  {
    hide DifferenceQuotient, NevilleCombine;
    var Q' := Q[i := Q[i][j := v]];
    var n := |x|;
    forall r, c | 0 <= r < n && 0 <= c < n
      ensures Q'[r][c] == (if r + c < n && (c < j || (c == j && r < i + 1)) then NevilleCell(x, y, t, r, c) else 0.0)
    {
      if r != i || c != j {
        assert Q'[r][c] == Q[r][c];
      }
    }
  }

  lemma TableauNextColumn(Q: seq<seq<real>>, x: seq<real>, y: seq<real>, t: real, j: nat)
    requires ValidData(x, y) && j < |x| && TableauFilled(Q, x, y, t, j, |x| - j)
    ensures TableauFilled(Q, x, y, t, j + 1, 0)
  {
    hide DifferenceQuotient, NevilleCombine;
  }

  /** The n-by-n tableau as `neville_interpolation` allocates it, with y in column 0
      and zeros elsewhere. */
  function StartTableau(y: seq<real>): (Q: seq<seq<real>>)
    ensures |Q| == |y| && forall r :: 0 <= r < |Q| ==> |Q[r]| == |y|
    ensures forall r, c :: 0 <= r < |y| && 0 <= c < |y| ==> Q[r][c] == if c == 0 then y[r] else 0.0
  {
    seq(|y|, r requires 0 <= r < |y| => seq(|y|, c => if c == 0 then y[r] else 0.0))
  }

  lemma TableauStart(x: seq<real>, y: seq<real>, t: real)
    requires ValidData(x, y)
    ensures TableauFilled(StartTableau(y), x, y, t, 1, 0)
  {
    hide DifferenceQuotient, NevilleCombine;
  }

  /** A completely filled tableau: column 0 is y, the cells below the
      anti-diagonal stay 0, and every other cell holds NevilleCell. */
  lemma TableauComplete(Q: seq<seq<real>>, x: seq<real>, y: seq<real>, t: real)
    requires ValidData(x, y) && TableauFilled(Q, x, y, t, |x|, 0)
    ensures |Q| == |x| && forall i :: 0 <= i < |Q| ==> |Q[i]| == |x|
    ensures forall i :: 0 <= i < |Q| ==> Q[i][0] == y[i]
    ensures forall i, j :: 0 <= i < |x| && 0 <= j < |x| && |x| <= i + j ==> Q[i][j] == 0.0
    ensures forall i, j :: 0 <= i < |x| && 0 <= j < |x| && i + j < |x| ==> Q[i][j] == NevilleCell(x, y, t, i, j)
  {
    hide DifferenceQuotient, NevilleCombine;
    forall i | 0 <= i < |Q|
      ensures Q[i][0] == y[i]
    {
      if 0 < |x| {
        assert Q[i][0] == NevilleCell(x, y, t, i, 0);
      }
    }
  }

  /** `neville_interpolation`'s loops over the n-by-n tableau: column 0 is y, then
      column j is filled for the rows i with i + j < n from column j - 1.
      The result is the top-right cell, the value of the interpolant of all
      nodes, and equals y[k] when t is the node x[k]. */
  method NevilleInterpolation(x: seq<real>, y: seq<real>, t: real) returns (result: real, Q: seq<seq<real>>)
    requires ValidData(x, y) && |x| >= 1
    ensures |Q| == |x| && forall i :: 0 <= i < |Q| ==> |Q[i]| == |x|
    ensures forall i :: 0 <= i < |Q| ==> Q[i][0] == y[i]
    ensures forall i, j :: 0 <= i < |x| && 0 <= j < |x| && |x| <= i + j ==> Q[i][j] == 0.0
    ensures forall i, j :: 0 <= i < |x| && 0 <= j < |x| && i + j < |x| ==> Q[i][j] == NevilleCell(x, y, t, i, j)
    ensures result == Q[0][|x| - 1]
    ensures forall k :: 0 <= k < |x| && t == x[k] ==> result == y[k]
  {
    hide DifferenceQuotient, NevilleCombine;
    var n := |x|;
    Q := StartTableau(y);
    TableauStart(x, y, t);
    hide TableauFilled, StartTableau, NevilleCell, ValidData;
    var j := 1;
    while j < n
      invariant 1 <= j <= n
      invariant TableauFilled(Q, x, y, t, j, 0)
    {
      var i := 0;
      while i < n - j
        invariant 0 <= i <= n - j
        invariant TableauFilled(Q, x, y, t, j, i)
      {
        TableauCellRead(Q, x, y, t, j, i, i, j - 1);
        TableauCellRead(Q, x, y, t, j, i, i + 1, j - 1);
        NevilleStep(x, y, t, i, j, Q[i][j - 1], Q[i + 1][j - 1]);
        var v := ((t - x[i + j]) * Q[i][j - 1] - (t - x[i]) * Q[i + 1][j - 1]) / (x[i] - x[i + j]);
        TableauWrite(Q, x, y, t, j, i, v);
        Q := Q[i := Q[i][j := v]];
        i := i + 1;
      }
      TableauNextColumn(Q, x, y, t, j);
      j := j + 1;
    }
    TableauComplete(Q, x, y, t);
    result := Q[0][n - 1];
    forall k | 0 <= k < n && t == x[k]
      ensures result == y[k]
    {
      NevilleAtNode(x, y, t, 0, n - 1, k);
    }
  }

  // ---------------------------------------------------------------------
  // Properties

  /** Neville's combination rewritten from either end when the two values
      differ by (xi - xj) * e. */
  lemma CombineAlgebra(t: real, xi: real, xj: real, a: real, b: real, e: real)
    requires xi != xj && a - b == (xi - xj) * e
    ensures NevilleCombine(t, xi, xj, a, b) == a + (t - xi) * e
    ensures NevilleCombine(t, xi, xj, a, b) == b + (t - xj) * e
  {
    var d := xi - xj;
    calc {
      (t - xj) * a - (t - xi) * b;
      (t - xj) * a - (t - xi) * (a - d * e);
      d * a + d * ((t - xi) * e);
      d * (a + (t - xi) * e);
    }
    calc {
      (t - xj) * a - (t - xi) * b;
      (t - xj) * (b + d * e) - (t - xi) * b;
      d * b + d * ((t - xj) * e);
      d * (b + (t - xj) * e);
    }
  }

  lemma QuotientStep(p: real, q: real, xi: real, xj: real)
    requires xi != xj
    ensures p - q == (xi - xj) * DifferenceQuotient(p, q, xi, xj)
  {
  }

  lemma ScaleStep(p: real, q: real, d: real, e: real, w: real)
    requires p - q == d * e
    ensures (p - q) * w == d * (e * w)
  {
  }

  lemma ReorderProduct(e: real, u: real, w: real)
    ensures e * (u * w) == u * (e * w)
    ensures e * (w * u) == u * (e * w)
  {
  }

  /** The two neighbouring cells of column k-1 differ by
      (f[x_i..x_{i+k-1}] - f[x_{i+1}..x_{i+k}]) * (t - x_{i+1}) ... (t - x_{i+k-1}),
      given the induction hypotheses of NevilleIsNewton for them. */
  lemma NeighbourDifference(x: seq<real>, y: seq<real>, t: real, i: nat, k: nat)
    requires ValidData(x, y) && 1 <= k && i + k < |x|
    requires NevilleCell(x, y, t, i, k - 1) == NewtonRight(x, y, t, i, k - 1)
    requires NevilleCell(x, y, t, i + 1, k - 1) == NewtonLeft(x, y, t, i + 1, k - 1)
    requires k >= 2 ==> NewtonRight(x, y, t, i + 1, k - 2) == NewtonLeft(x, y, t, i + 1, k - 2)
    ensures NevilleCell(x, y, t, i, k - 1) - NevilleCell(x, y, t, i + 1, k - 1)
         == (DividedDifference(x, y, i, k - 1) - DividedDifference(x, y, i + 1, k - 1)) * NodeProduct(x, t, i + 1, i + k)
  {
    hide DifferenceQuotient, NevilleCombine;
    if k >= 2 {
      var r := NewtonRight(x, y, t, i + 1, k - 2);
      var p := DividedDifference(x, y, i, k - 1);
      var q := DividedDifference(x, y, i + 1, k - 1);
      var w := NodeProduct(x, t, i + 1, i + k);
      assert NewtonRight(x, y, t, i, k - 1) == r + p * w;
      assert NewtonLeft(x, y, t, i + 1, k - 1) == r + q * w;
      assert (r + p * w) - (r + q * w) == (p - q) * w;
    }
  }

  /** Two neighbouring divided differences of order k-1 differ by
      (x_i - x_{i+k}) times the one of order k. */
  lemma QuotientOrder(x: seq<real>, y: seq<real>, i: nat, k: nat)
    requires ValidData(x, y) && 1 <= k && i + k < |x|
    ensures DividedDifference(x, y, i, k - 1) - DividedDifference(x, y, i + 1, k - 1)
         == (x[i] - x[i + k]) * DividedDifference(x, y, i, k)
  {
    NodesDiffer(x, i, i + k);
    QuotientStep(DividedDifference(x, y, i, k - 1), DividedDifference(x, y, i + 1, k - 1), x[i], x[i + k]);
  }

  /** The difference of NeighbourDifference as (x_i - x_{i+k}) * e, where e is
      the new term f[x_i..x_{i+k}] * (t - x_{i+1}) ... (t - x_{i+k-1}). */
  lemma NeighbourDifferenceScaled(x: seq<real>, y: seq<real>, t: real, i: nat, k: nat, a: real, b: real, e: real)
    requires ValidData(x, y) && 1 <= k && i + k < |x|
    requires a - b == (DividedDifference(x, y, i, k - 1) - DividedDifference(x, y, i + 1, k - 1)) * NodeProduct(x, t, i + 1, i + k)
    requires e == DividedDifference(x, y, i, k) * NodeProduct(x, t, i + 1, i + k)
    ensures a - b == (x[i] - x[i + k]) * e
  {
    hide DifferenceQuotient, NevilleCombine;
    QuotientOrder(x, y, i, k);
    ScaleStep(DividedDifference(x, y, i, k - 1), DividedDifference(x, y, i + 1, k - 1), x[i] - x[i + k],
              DividedDifference(x, y, i, k), NodeProduct(x, t, i + 1, i + k));
  }

  /** Neville's recurrence, read from either end, once the neighbouring cells
      are known to differ by (x_i - x_{i+k}) * e. */
  lemma NevilleFromEitherEnd(x: seq<real>, y: seq<real>, t: real, i: nat, k: nat, e: real)
    requires ValidData(x, y) && 1 <= k && i + k < |x|
    requires NevilleCell(x, y, t, i, k - 1) - NevilleCell(x, y, t, i + 1, k - 1) == (x[i] - x[i + k]) * e
    ensures NevilleCell(x, y, t, i, k) == NevilleCell(x, y, t, i, k - 1) + (t - x[i]) * e
    ensures NevilleCell(x, y, t, i, k) == NevilleCell(x, y, t, i + 1, k - 1) + (t - x[i + k]) * e
  {
    hide DifferenceQuotient, NevilleCombine;
    NodesDiffer(x, i, i + k);
    CombineAlgebra(t, x[i], x[i + k], NevilleCell(x, y, t, i, k - 1), NevilleCell(x, y, t, i + 1, k - 1), e);
  }

  /** One more term e of the left Newton form. */
  lemma NewtonLeftStep(x: seq<real>, y: seq<real>, t: real, i: nat, k: nat, e: real)
    requires ValidData(x, y) && 1 <= k && i + k < |x|
    requires e == DividedDifference(x, y, i, k) * NodeProduct(x, t, i + 1, i + k)
    ensures NewtonLeft(x, y, t, i, k) == NewtonLeft(x, y, t, i, k - 1) + (t - x[i]) * e
  {
    hide DifferenceQuotient, NevilleCombine;
    NodeProductFront(x, t, i, i + k);
    ReorderProduct(DividedDifference(x, y, i, k), t - x[i], NodeProduct(x, t, i + 1, i + k));
  }

  /** One more term e of the right Newton form. */
  lemma NewtonRightStep(x: seq<real>, y: seq<real>, t: real, i: nat, k: nat, e: real)
    requires ValidData(x, y) && 1 <= k && i + k < |x|
    requires e == DividedDifference(x, y, i, k) * NodeProduct(x, t, i + 1, i + k)
    ensures NewtonRight(x, y, t, i, k) == NewtonRight(x, y, t, i + 1, k - 1) + (t - x[i + k]) * e
  {
    hide DifferenceQuotient, NevilleCombine;
    assert NodeProduct(x, t, i + 1, i + k + 1) == NodeProduct(x, t, i + 1, i + k) * (t - x[i + k]);
    ReorderProduct(DividedDifference(x, y, i, k), t - x[i + k], NodeProduct(x, t, i + 1, i + k));
  }

  /** The induction step of NevilleIsNewton: from the hypotheses for the two
      neighbouring cells of column k-1 (and, for k >= 2, the cell of column
      k-2 they share) to the cell of column k. */
  lemma NevilleNewtonStep(x: seq<real>, y: seq<real>, t: real, i: nat, k: nat)
    requires ValidData(x, y) && 1 <= k && i + k < |x|
    requires NevilleCell(x, y, t, i, k - 1) == NewtonLeft(x, y, t, i, k - 1)
    requires NevilleCell(x, y, t, i, k - 1) == NewtonRight(x, y, t, i, k - 1)
    requires NevilleCell(x, y, t, i + 1, k - 1) == NewtonLeft(x, y, t, i + 1, k - 1)
    requires NevilleCell(x, y, t, i + 1, k - 1) == NewtonRight(x, y, t, i + 1, k - 1)
    requires k >= 2 ==> NewtonRight(x, y, t, i + 1, k - 2) == NewtonLeft(x, y, t, i + 1, k - 2)
    ensures NevilleCell(x, y, t, i, k) == NewtonLeft(x, y, t, i, k)
    ensures NevilleCell(x, y, t, i, k) == NewtonRight(x, y, t, i, k)
  {
    NeighbourDifference(x, y, t, i, k);
    hide DifferenceQuotient, NevilleCombine, NevilleCell, NewtonLeft, NewtonRight, DividedDifference, NodeProduct;
    var e := DividedDifference(x, y, i, k) * NodeProduct(x, t, i + 1, i + k);
    NeighbourDifferenceScaled(x, y, t, i, k, NevilleCell(x, y, t, i, k - 1), NevilleCell(x, y, t, i + 1, k - 1), e);
    NevilleFromEitherEnd(x, y, t, i, k, e);
    NewtonLeftStep(x, y, t, i, k, e);
    NewtonRightStep(x, y, t, i, k, e);
  }

  /** Neville's cell for nodes i..i+k is the Newton form of those nodes taken
      from either end. Proved jointly by strong induction on k, through the
      difference of the two neighbouring cells of column k-1. */
  lemma {:induction false} NevilleIsNewton(x: seq<real>, y: seq<real>, t: real, i: nat, k: nat)
    requires ValidData(x, y) && i + k < |x|
    ensures NevilleCell(x, y, t, i, k) == NewtonLeft(x, y, t, i, k)
    ensures NevilleCell(x, y, t, i, k) == NewtonRight(x, y, t, i, k)
    decreases k
  {
    if k > 0 {
      hide DifferenceQuotient, NevilleCombine, NevilleCell, NewtonLeft, NewtonRight, DividedDifference, NodeProduct;
      NevilleIsNewton(x, y, t, i, k - 1);
      NevilleIsNewton(x, y, t, i + 1, k - 1);
      if k >= 2 {
        NevilleIsNewton(x, y, t, i + 1, k - 2);
      }
      NevilleNewtonStep(x, y, t, i, k);
    }
  }

  /** Neville's combination at a node shared by both halves, or at the
      outer node of the half that already reproduces the sample there. */
  lemma CombineAtNode(t: real, xi: real, xj: real, a: real, b: real, yk: real)
    requires xi != xj
    requires (t == xi && a == yk) || (t == xj && b == yk) || (a == yk && b == yk)
    ensures NevilleCombine(t, xi, xj, a, b) == yk
  {
    var num := (t - xj) * a - (t - xi) * b;
    if t == xi && a == yk {
      assert num == (xi - xj) * yk - 0.0 * b;
    } else if t == xj && b == yk {
      assert num == 0.0 * a - (xj - xi) * yk;
    } else {
      assert num == ((t - xj) - (t - xi)) * yk;
    }
    DivideExact(num, xi - xj, yk);
  }

  lemma DivideExact(num: real, d: real, q: real)
    requires d != 0.0 && num == d * q
    ensures num / d == q
  {
  }

  /** Every cell whose block of nodes contains x[k] evaluates to y[k] at t = x[k]. */
  lemma {:induction false} NevilleAtNode(x: seq<real>, y: seq<real>, t: real, i: nat, j: nat, k: nat)
    requires ValidData(x, y) && i <= k <= i + j < |x| && t == x[k]
    ensures NevilleCell(x, y, t, i, j) == y[k]
    decreases j
  {
    hide DifferenceQuotient, NevilleCombine;
    if j > 0 {
      var a := NevilleCell(x, y, t, i, j - 1);
      var b := NevilleCell(x, y, t, i + 1, j - 1);
      if k < i + j {
        NevilleAtNode(x, y, t, i, j - 1, k);
      }
      if i < k {
        NevilleAtNode(x, y, t, i + 1, j - 1, k);
      }
      NodesDiffer(x, i, i + j);
      CombineAtNode(t, x[i], x[i + j], a, b, y[k]);
    }
  }

  /** Newton's form with the divided-difference coefficients and Neville's
      tableau give the same value at every t. */
  lemma NewtonAgreesWithNeville(x: seq<real>, y: seq<real>, coef: seq<real>, t: real)
    requires ValidData(x, y) && |x| >= 1 && |coef| == |x|
    requires forall k :: 0 <= k < |coef| ==> coef[k] == DividedDifference(x, y, 0, k)
    ensures NewtonSum(x, coef, t, |coef|) == NevilleCell(x, y, t, 0, |x| - 1)
  {
    hide DifferenceQuotient, NevilleCombine;
    NewtonSumIsNewtonForm(x, y, coef, t, |x|);
    NevilleIsNewton(x, y, t, 0, |x| - 1);
  }

  lemma SlopeReversed(p: real, q: real, xi: real, xj: real, e: real)
    requires p - q == (xi - xj) * e
    ensures (xj - xi) * e == q - p
  {
  }

  /** The Newton form on two nodes, written out. */
  lemma TwoTermNewton(x: seq<real>, coef: seq<real>, t: real)
    requires |x| == 2 && |coef| == 2
    ensures NewtonSum(x, coef, t, 2) == coef[0] + (t - x[0]) * coef[1]
  {
    assert NodeProduct(x, t, 0, 1) == t - x[0];
    ScaleEqual(coef[1], NodeProduct(x, t, 0, 1), t - x[0]);
    assert NewtonSum(x, coef, t, 1) == coef[0] * NodeProduct(x, t, 0, 0);
  }

  /** On two nodes the table holds y[0] and the slope between them. */
  lemma TwoNodeTable(x: seq<real>, y: seq<real>, coef: seq<real>)
    requires ValidData(x, y) && |x| == 2 && |coef| == 2
    requires forall k :: 0 <= k < 2 ==> coef[k] == DividedDifference(x, y, 0, k)
    ensures x[0] != x[1]
    ensures coef[0] == y[0] && y[0] - y[1] == (x[0] - x[1]) * coef[1]
  {
    NodesDiffer(x, 0, 1);
    assert coef[1] == DifferenceQuotient(y[0], y[1], x[0], x[1]);
    QuotientStep(y[0], y[1], x[0], x[1]);
  }

  /** With two nodes both methods give the straight line through them:
      the value at x[0] plus the slope times (t - x[0]). */
  lemma TwoNodesLinear(x: seq<real>, y: seq<real>, coef: seq<real>, t: real)
    requires ValidData(x, y) && |x| == 2 && |coef| == 2
    requires forall k :: 0 <= k < 2 ==> coef[k] == DividedDifference(x, y, 0, k)
    ensures (x[1] - x[0]) * coef[1] == y[1] - y[0]
    ensures NevilleCell(x, y, t, 0, 1) == y[0] + (t - x[0]) * coef[1]
    ensures NewtonSum(x, coef, t, 2) == y[0] + (t - x[0]) * coef[1]
  {
    hide DifferenceQuotient, NevilleCombine, NewtonSum, NodeProduct, DividedDifference;
    TwoNodeTable(x, y, coef);
    TwoTermNewton(x, coef, t);
    assert NevilleCell(x, y, t, 0, 1) == NevilleCombine(t, x[0], x[1], y[0], y[1]);
    hide NevilleCell, ValidData;
    CombineAlgebra(t, x[0], x[1], y[0], y[1], coef[1]);
    SlopeReversed(y[0], y[1], x[0], x[1], coef[1]);
  }

  /** The three routines as the caller runs them on one data set: the
      divided-difference table, its Newton evaluation and Neville's tableau.
      Newton and Neville agree, and at a node both return the sample. */
  method Interpolate(x: seq<real>, y: seq<real>, t: real) returns (newton: real, neville: real)
    requires ValidData(x, y) && |x| >= 1
    ensures newton == neville
    ensures neville == NevilleCell(x, y, t, 0, |x| - 1)
    ensures forall k :: 0 <= k < |x| && t == x[k] ==> newton == y[k]
  {
    hide DifferenceQuotient, NevilleCombine;
    var coef := NewtonDividedDiff(x, y);
    newton := NewtonInterpolation(x, coef, t);
    var tableau;
    neville, tableau := NevilleInterpolation(x, y, t);
    NewtonAgreesWithNeville(x, y, coef, t);
  }
}
