/** The chi-squared test of independence between district and arrest of
    `chicago_district_arrest_chi_squared_test` (chicago_crime_analysis.py),
    stated for any number of district rows with the script's two columns,
    arrests and thefts. Observed counts, column totals and the grand total `n`
    are all given: the script hardcodes them and never derives `n` from the
    table. Arithmetic is exact; a division by zero, which Python would raise
    as ZeroDivisionError, is an explicit error. */
module ChiSquared {
  import opened Wrappers

  /** Observed counts of one district. */
  datatype DistrictCounts = DistrictCounts(arrests: nat, thefts: nat)

  datatype Decision = Reject | FailToReject

  datatype TestError = DivisionByZero

  /** The critical value the script hardcodes. Its comment attributes the value
      to 4 degrees of freedom at significance level 0.05, but that quantile is
      about 9.4877; 9.88 corresponds to a significance level of about 0.0425. */
  const CriticalValue: real := 9.88

  function RowTotal(d: DistrictCounts): nat { d.arrests + d.thefts }

  /** Expected count of a cell under independence: its row total times its
      column total over the grand total. */
  function Expected(rowTotal: nat, columnTotal: nat, n: nat): (e: real)
    requires n > 0
    ensures e >= 0.0
    ensures e == 0.0 <==> rowTotal == 0 || columnTotal == 0
    ensures e * n as real == (rowTotal * columnTotal) as real
  {
    (rowTotal * columnTotal) as real / n as real
  }

  /** One cell's contribution (o - e)^2 / e, computed as ((o - e) / e) * (o - e). */
  function Term(observed: nat, expected: real): (t: real)
    requires expected > 0.0
    ensures t >= 0.0
    ensures t == 0.0 <==> observed as real == expected
  {
    var diff := observed as real - expected;
    assert diff != 0.0 ==> (diff / expected) * diff > 0.0 by {
      if diff != 0.0 {
        PositiveScaledSquare(diff, expected);
      }
    }
    (diff / expected) * diff
  }

  lemma PositiveScaledSquare(d: real, e: real)
    requires d != 0.0 && e > 0.0
    ensures (d / e) * d > 0.0
  {
  }

  /** A district's two expected cells are defined and nonzero: the grand total,
      the district's row total and both column totals are positive. */
  predicate CellsDefined(d: DistrictCounts, totalArrests: nat, totalThefts: nat, n: nat)
  {
    n > 0 && RowTotal(d) > 0 && totalArrests > 0 && totalThefts > 0
  }

  predicate AllCellsDefined(rows: seq<DistrictCounts>, totalArrests: nat, totalThefts: nat, n: nat)
  {
    forall i :: 0 <= i < |rows| ==> CellsDefined(rows[i], totalArrests, totalThefts, n)
  }

  /** The theft term plus the arrest term of one district. */
  function RowStatistic(d: DistrictCounts, totalArrests: nat, totalThefts: nat, n: nat): (s: real)
    requires CellsDefined(d, totalArrests, totalThefts, n)
    ensures s >= 0.0
    ensures s == 0.0 <==>
      && d.thefts as real == Expected(RowTotal(d), totalThefts, n)
      && d.arrests as real == Expected(RowTotal(d), totalArrests, n)
  {
    Term(d.thefts, Expected(RowTotal(d), totalThefts, n))
      + Term(d.arrests, Expected(RowTotal(d), totalArrests, n))
  }

  /** The statistic: the sum of every district's terms. */
  function Statistic(rows: seq<DistrictCounts>, totalArrests: nat, totalThefts: nat, n: nat): (s: real)
    requires AllCellsDefined(rows, totalArrests, totalThefts, n)
    ensures s >= 0.0
    decreases |rows|
  {
    if rows == [] then 0.0
    else RowStatistic(rows[0], totalArrests, totalThefts, n) + Statistic(rows[1..], totalArrests, totalThefts, n)
  }

  /** The statistic is zero exactly when every observed count equals its
      expected count. */
  lemma {:induction false} StatisticZeroIff(rows: seq<DistrictCounts>, totalArrests: nat, totalThefts: nat, n: nat)
    requires AllCellsDefined(rows, totalArrests, totalThefts, n)
    ensures Statistic(rows, totalArrests, totalThefts, n) == 0.0 <==>
      forall i :: 0 <= i < |rows| ==>
        && rows[i].thefts as real == Expected(RowTotal(rows[i]), totalThefts, n)
        && rows[i].arrests as real == Expected(RowTotal(rows[i]), totalArrests, n)
    decreases |rows|
  {
    if rows != [] {
      StatisticZeroIff(rows[1..], totalArrests, totalThefts, n);
      assert forall i :: 1 <= i < |rows| ==> rows[i] == rows[1..][i - 1];
    }
  }

  /** The statistic as the script computes it, or the division by zero it would
      raise on a district whose expected cell has a zero denominator. */
  function ChiSquaredStatistic(rows: seq<DistrictCounts>, totalArrests: nat, totalThefts: nat, n: nat): (r: Result<real, TestError>)
    ensures r.Success? <==> AllCellsDefined(rows, totalArrests, totalThefts, n)
    ensures r.Success? ==> r.value >= 0.0 && r.value == Statistic(rows, totalArrests, totalThefts, n)
    ensures r.Failure? ==> r.error == DivisionByZero
  {
    if AllCellsDefined(rows, totalArrests, totalThefts, n) then Success(Statistic(rows, totalArrests, totalThefts, n))
    else Failure(DivisionByZero)
  }

  /** The test: reject independence exactly when the statistic exceeds the
      critical value. */
  function IndependenceTest(rows: seq<DistrictCounts>, totalArrests: nat, totalThefts: nat, n: nat): (r: Result<Decision, TestError>)
    ensures r.Success? <==> ChiSquaredStatistic(rows, totalArrests, totalThefts, n).Success?
    ensures r == Success(Reject) <==>
      var s := ChiSquaredStatistic(rows, totalArrests, totalThefts, n);
      s.Success? && s.value > CriticalValue
    ensures r == Success(FailToReject) <==>
      var s := ChiSquaredStatistic(rows, totalArrests, totalThefts, n);
      s.Success? && s.value <= CriticalValue
  {
    match ChiSquaredStatistic(rows, totalArrests, totalThefts, n)
    case Success(s) => if s > CriticalValue then Success(Reject) else Success(FailToReject)
    case Failure(e) => Failure(e)
  }

  /** A district's two expected cells add up to its row total exactly when the
      grand total is the sum of the two column totals. */
  lemma ExpectedRowSum(rowTotal: nat, totalArrests: nat, totalThefts: nat, n: nat)
    requires n > 0 && rowTotal > 0
    ensures Expected(rowTotal, totalArrests, n) + Expected(rowTotal, totalThefts, n) == rowTotal as real
      <==> n == totalArrests + totalThefts
  {
    var sum := Expected(rowTotal, totalArrests, n) + Expected(rowTotal, totalThefts, n);
    assert sum * n as real == rowTotal as real * (totalArrests + totalThefts) as real;
    if sum == rowTotal as real {
      assert rowTotal as real * n as real == rowTotal as real * (totalArrests + totalThefts) as real;
    }
  }

  function SumArrests(rows: seq<DistrictCounts>): nat
  {
    if rows == [] then 0 else rows[0].arrests + SumArrests(rows[1..])
  }

  function SumThefts(rows: seq<DistrictCounts>): nat
  {
    if rows == [] then 0 else rows[0].thefts + SumThefts(rows[1..])
  }

  // ---------------------------------------------------------------------------
  // The script's hardcoded table: districts 18, 1, 19, 12 and 8.

  const ScriptDistricts: seq<DistrictCounts> := [
    DistrictCounts(3752, 30287),
    DistrictCounts(5113, 29523),
    DistrictCounts(2223, 23739),
    DistrictCounts(1848, 21526),
    DistrictCounts(2659, 19980)
  ]

  const ScriptTotalArrests: nat := 15595
  const ScriptTotalThefts: nat := 125055
  const ScriptN: nat := 143650

  /** The hardcoded column totals are the column sums of the table, but the
      hardcoded grand total is not their sum (140650). */
  lemma ScriptConstants()
    ensures SumArrests(ScriptDistricts) == ScriptTotalArrests
    ensures SumThefts(ScriptDistricts) == ScriptTotalThefts
    ensures ScriptTotalArrests + ScriptTotalThefts == 140650 != ScriptN
  {
    assert ScriptDistricts[1..][1..][1..][1..][1..] == [];
  }

  /** With the hardcoded grand total, no district's expected cells add up to
      its observed row total. */
  lemma ScriptMarginsInconsistent()
    ensures forall i :: 0 <= i < |ScriptDistricts| ==>
      var t := RowTotal(ScriptDistricts[i]);
      Expected(t, ScriptTotalArrests, ScriptN) + Expected(t, ScriptTotalThefts, ScriptN) != t as real
  {
    forall i | 0 <= i < |ScriptDistricts|
      ensures var t := RowTotal(ScriptDistricts[i]);
        Expected(t, ScriptTotalArrests, ScriptN) + Expected(t, ScriptTotalThefts, ScriptN) != t as real
    {
      ExpectedRowSum(RowTotal(ScriptDistricts[i]), ScriptTotalArrests, ScriptTotalThefts, ScriptN);
    }
  }

  /** The test exactly as the script runs it. */
  function ScriptIndependenceTest(): (r: Result<Decision, TestError>)
    ensures r == Success(Reject)
  {
    var rows := ScriptDistricts;
    assert AllCellsDefined(rows, ScriptTotalArrests, ScriptTotalThefts, ScriptN);
    StatisticAboveFirstTerm(rows, ScriptTotalArrests, ScriptTotalThefts, ScriptN);
    assert Term(30287, Expected(34039, ScriptTotalThefts, ScriptN)) > CriticalValue;
    IndependenceTest(rows, ScriptTotalArrests, ScriptTotalThefts, ScriptN)
  }

  /** The statistic is at least the first district's theft term. */
  lemma StatisticAboveFirstTerm(rows: seq<DistrictCounts>, totalArrests: nat, totalThefts: nat, n: nat)
    requires |rows| > 0 && AllCellsDefined(rows, totalArrests, totalThefts, n)
    ensures Statistic(rows, totalArrests, totalThefts, n)
      >= Term(rows[0].thefts, Expected(RowTotal(rows[0]), totalThefts, n))
  {
    assert AllCellsDefined(rows[1..], totalArrests, totalThefts, n) by {
      assert forall i :: 1 <= i < |rows| ==> rows[i] == rows[1..][i - 1];
    }
  }

  /** The grand total the test evidently means: the sum of the column totals. */
  const CorrectedN: nat := ScriptTotalArrests + ScriptTotalThefts

  /** With the corrected grand total every district's expected cells add up to
      its observed row total, and the test still rejects independence. */
  function CorrectedIndependenceTest(): (r: Result<Decision, TestError>)
    ensures r == Success(Reject)
    ensures forall i :: 0 <= i < |ScriptDistricts| ==>
      var t := RowTotal(ScriptDistricts[i]);
      Expected(t, ScriptTotalArrests, CorrectedN) + Expected(t, ScriptTotalThefts, CorrectedN) == t as real
  {
    var rows := ScriptDistricts;
    forall i | 0 <= i < |rows|
      ensures var t := RowTotal(rows[i]);
        Expected(t, ScriptTotalArrests, CorrectedN) + Expected(t, ScriptTotalThefts, CorrectedN) == t as real
    {
      ExpectedRowSum(RowTotal(rows[i]), ScriptTotalArrests, ScriptTotalThefts, CorrectedN);
    }
    assert AllCellsDefined(rows, ScriptTotalArrests, ScriptTotalThefts, CorrectedN);
    StatisticAboveSecondDistrict(rows, ScriptTotalArrests, ScriptTotalThefts, CorrectedN);
    assert Term(29523, Expected(34636, ScriptTotalThefts, CorrectedN)) > CriticalValue;
    IndependenceTest(rows, ScriptTotalArrests, ScriptTotalThefts, CorrectedN)
  }

  /** The statistic is at least the second district's theft term. */
  lemma StatisticAboveSecondDistrict(rows: seq<DistrictCounts>, totalArrests: nat, totalThefts: nat, n: nat)
    requires |rows| > 1 && AllCellsDefined(rows, totalArrests, totalThefts, n)
    ensures Statistic(rows, totalArrests, totalThefts, n)
      >= Term(rows[1].thefts, Expected(RowTotal(rows[1]), totalThefts, n))
  {
    assert AllCellsDefined(rows[1..], totalArrests, totalThefts, n) by {
      assert forall i :: 1 <= i < |rows| ==> rows[i] == rows[1..][i - 1];
    }
    StatisticAboveFirstTerm(rows[1..], totalArrests, totalThefts, n);
  }
}
