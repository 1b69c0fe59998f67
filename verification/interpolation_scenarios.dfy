/** The two air-quality data sets the analysis runs on (days as nodes, AQI
    readings as values) and the estimate for day 2.5 that Newton's and
    Neville's methods both give on each. */
module InterpolationScenarios {
  import opened Interpolation

  const Target: real := 2.5

  /** Days 2, 3, 4 of the week. */
  const DaysSubset: seq<real> := [2.0, 3.0, 4.0]
  const AqiSubset: seq<real> := [80.0, 78.0, 82.0]

  /** All five days. */
  const DaysFull: seq<real> := [1.0, 2.0, 3.0, 4.0, 5.0]
  const AqiFull: seq<real> := [75.0, 80.0, 78.0, 82.0, 77.0]

  lemma SubsetIsValid()
    ensures ValidData(DaysSubset, AqiSubset)
  {
    assert forall i, j :: 0 <= i < j < 3 ==> NodeGap(DaysSubset, i, j) == (j - i) as real;
  }

  lemma FullIsValid()
    ensures ValidData(DaysFull, AqiFull)
  {
    assert forall i, j :: 0 <= i < j < 5 ==> NodeGap(DaysFull, i, j) == (j - i) as real;
  }

  /** The divided-difference table of the three-day subset: 80, -2, 3. */
  lemma SubsetCoefficients()
    ensures ValidData(DaysSubset, AqiSubset)
    ensures DividedDifference(DaysSubset, AqiSubset, 0, 0) == 80.0
    ensures DividedDifference(DaysSubset, AqiSubset, 0, 1) == -2.0
    ensures DividedDifference(DaysSubset, AqiSubset, 0, 2) == 3.0
  {
    SubsetIsValid();
    var x, y := DaysSubset, AqiSubset;
    assert DividedDifference(x, y, 1, 1) == 4.0;
  }

  /** The divided-difference table of the five-day data: 75, 5, -7/2, 13/6, -7/6. */
  lemma FullCoefficients()
    ensures ValidData(DaysFull, AqiFull)
    ensures DividedDifference(DaysFull, AqiFull, 0, 0) == 75.0
    ensures DividedDifference(DaysFull, AqiFull, 0, 1) == 5.0
    ensures DividedDifference(DaysFull, AqiFull, 0, 2) == -7.0 / 2.0
    ensures DividedDifference(DaysFull, AqiFull, 0, 3) == 13.0 / 6.0
    ensures DividedDifference(DaysFull, AqiFull, 0, 4) == -7.0 / 6.0
  {
    FullIsValid();
    var x, y := DaysFull, AqiFull;
    assert DividedDifference(x, y, 1, 1) == -2.0;
    assert DividedDifference(x, y, 2, 1) == 4.0;
    assert DividedDifference(x, y, 3, 1) == -5.0;
    assert DividedDifference(x, y, 1, 2) == 3.0;
    assert DividedDifference(x, y, 2, 2) == -9.0 / 2.0;
    assert DividedDifference(x, y, 1, 3) == -5.0 / 2.0;
  }

  /** The Newton form of the three-day table evaluated at day 2.5. */
  lemma SubsetNewtonValue()
    ensures NewtonSum(DaysSubset, [80.0, -2.0, 3.0], Target, 3) == 78.25
  {
    var x, c := DaysSubset, [80.0, -2.0, 3.0];
    assert NodeProduct(x, Target, 0, 1) == 0.5;
    assert NodeProduct(x, Target, 0, 2) == -0.25;
  }

  /** The three-day estimate for day 2.5: 80 - 2 * 0.5 + 3 * 0.5 * (-0.5) = 78.25,
      from both methods. */
  method SubsetEstimate() returns (newton: real, neville: real)
    ensures newton == 78.25 && neville == 78.25
  {
    SubsetIsValid();
    SubsetCoefficients();
    SubsetNewtonValue();
    hide DifferenceQuotient, NevilleCombine, DividedDifference, NevilleCell, NewtonLeft, NewtonSum, NodeProduct, DistinctNodes;
    newton, neville := Interpolate(DaysSubset, AqiSubset, Target);
    var x, c := DaysSubset, [80.0, -2.0, 3.0];
    NewtonSumIsNewtonForm(x, AqiSubset, c, Target, 3);
    NevilleIsNewton(x, AqiSubset, Target, 0, 2);
  }

  /** The Newton form of the five-day table evaluated at day 2.5. */
  lemma FullNewtonValue()
    ensures NewtonSum(DaysFull, [75.0, 5.0, -7.0 / 2.0, 13.0 / 6.0, -7.0 / 6.0], Target, 5) == 78.40625
  {
    var x := DaysFull;
    assert NodeProduct(x, Target, 0, 1) == 1.5;
    assert NodeProduct(x, Target, 0, 2) == 0.75;
    assert NodeProduct(x, Target, 0, 3) == -0.375;
    assert NodeProduct(x, Target, 0, 4) == 0.5625;
  }

  /** The five-day estimate for day 2.5:
      75 + 5 * 1.5 - 7/2 * 0.75 + 13/6 * (-0.375) - 7/6 * 0.5625 = 78.40625. */
  method FullEstimate() returns (newton: real, neville: real)
    ensures newton == 78.40625 && neville == 78.40625
  {
    FullIsValid();
    FullCoefficients();
    FullNewtonValue();
    hide DifferenceQuotient, NevilleCombine, DividedDifference, NevilleCell, NewtonLeft, NewtonSum, NodeProduct, DistinctNodes;
    newton, neville := Interpolate(DaysFull, AqiFull, Target);
    var x, c := DaysFull, [75.0, 5.0, -7.0 / 2.0, 13.0 / 6.0, -7.0 / 6.0];
    NewtonSumIsNewtonForm(x, AqiFull, c, Target, 5);
    NevilleIsNewton(x, AqiFull, Target, 0, 4);
  }
}
