/** The arrest-rate ranking of `highest_arrest_rate_by_crime` and
    `lowest_arrest_rate_by_crime` (chicago_crime_analysis.py): per crime type,
    the share of all records (`crime_rate_in_%`), the share of arrested
    records (`crime_arrest_rate_in_%`) and their ratio (`arrest_rate`); the
    rows sorted by `arrest_rate`, thinned to the types whose share exceeds the
    minimum support, and cut to the first ten. Shares and rates are exact
    rationals. */
module ArrestRates {
  import opened Sequences
  import opened CountTables
  import opened CrimeRecords

  /** A crime type's share of all records must exceed this to be ranked. */
  const MinSupport: real := 0.00075

  /** Number of rows a ranking keeps (`iloc[:10]`). */
  const RankingSize: nat := 10

  datatype RateRow = RateRow(
    crimeType: string,
    crimeCount: nat,
    arrestCount: nat,
    crimeShare: real,
    arrestShare: real,
    arrestRate: real)

  function ArrestRateOf(r: RateRow): real { r.arrestRate }

  predicate Supported(r: RateRow) { r.crimeShare > MinSupport }

  /** `arrest_rate` as the script computes it, the arrest share over the crime
      share; the record total cancels, leaving arrests over crimes. */
  function ArrestRate(arrests: nat, crimes: nat, total: nat): (rate: real)
    requires 0 < crimes && 0 < total
    ensures rate == arrests as real / crimes as real
  {
    var crimeShare := crimes as real / total as real;
    var arrestShare := arrests as real / total as real;
    assert arrestShare / crimeShare == arrests as real / crimes as real by {
      assert arrestShare == (arrests as real / crimes as real) * crimeShare;
    }
    arrestShare / crimeShare
  }

  /** Scaling a type's arrest and crime counts by the same positive factor, or
      taking the shares against any other record total, leaves its arrest rate
      unchanged. */
  lemma ArrestRateScaleInvariant(arrests: nat, crimes: nat, total: nat, factor: nat, total': nat)
    requires 0 < crimes && 0 < total && 0 < factor && 0 < total'
    ensures ArrestRate(factor * arrests, factor * crimes, total') == ArrestRate(arrests, crimes, total)
  {
    var f := factor as real;
    assert (factor * arrests) as real == f * arrests as real;
    assert (factor * crimes) as real == f * crimes as real;
    assert (f * arrests as real) / (f * crimes as real) == arrests as real / crimes as real by {
      assert f * arrests as real == (arrests as real / crimes as real) * (f * crimes as real);
    }
  }

  /** An arrest rate lies in (0, 1] exactly when the type has at least one
      arrest and no more arrests than records. */
  lemma ArrestRateBounds(arrests: nat, crimes: nat, total: nat)
    requires 0 < crimes && 0 < total
    ensures 0.0 < ArrestRate(arrests, crimes, total) <= 1.0 <==> 0 < arrests <= crimes
  {
    DivPositive(arrests as real, crimes as real);
    DivAtMostOne(arrests as real, crimes as real);
  }

  lemma DivPositive(x: real, y: real)
    requires y > 0.0
    ensures x / y > 0.0 <==> x > 0.0
  {
  }

  lemma DivAtMostOne(x: real, y: real)
    requires y > 0.0
    ensures x / y <= 1.0 <==> x <= y
  {
  }

  /** The rate columns added to each merged row; `total` is `df.shape[0]`. */
  function WithRates(j: seq<Pair<string>>, total: nat): (rows: seq<RateRow>)
    requires forall i :: 0 <= i < |j| ==> 0 < j[i].left <= total
    ensures |rows| == |j|
    ensures forall i :: 0 <= i < |rows| ==>
      && rows[i].crimeType == j[i].key
      && rows[i].crimeCount == j[i].left
      && rows[i].arrestCount == j[i].right
      && rows[i].crimeShare == j[i].left as real / total as real
      && rows[i].arrestShare == j[i].right as real / total as real
      && rows[i].arrestRate == j[i].right as real / j[i].left as real
    decreases |j|
  {
    if j == [] then []
    else
      var p := j[0];
      [RateRow(p.key, p.left, p.right, p.left as real / total as real, p.right as real / total as real,
               ArrestRate(p.right, p.left, total))]
      + WithRates(j[1..], total)
  }

  function ArrestedRecords(df: seq<Record>): seq<Record> { Where(df, Arrested) }

  /** Crime count per type inner-merged with arrest count per type. */
  function CrimeArrestJoin(df: seq<Record>): seq<Pair<string>>
  {
    InnerJoin(CountBy(df, CrimeType), CountBy(ArrestedRecords(df), CrimeType))
  }

  /** The merge holds exactly the crime types with at least one arrest, each
      with its record count and its arrest count. */
  lemma CrimeArrestJoinRows(df: seq<Record>, p: Pair<string>)
    ensures p in CrimeArrestJoin(df) <==>
      && p.left == Occurrences(df, CrimeType, p.key)
      && p.right == Occurrences(ArrestedRecords(df), CrimeType, p.key)
      && p.right > 0
    ensures p in CrimeArrestJoin(df) ==> p.right <= p.left <= |df|
  {
    var l := CountBy(df, CrimeType);
    var r := CountBy(ArrestedRecords(df), CrimeType);
    var j := CrimeArrestJoin(df);
    OccurrencesOfSelection(df, Arrested, CrimeType, p.key);
    OccurrencesBound(df, CrimeType, p.key);
    CountByRows(df, CrimeType, Row(p.key, p.left));
    if p in j {
      var i :| 0 <= i < |j| && j[i] == p;
      assert Row(p.key, p.left) in l && p.key in KeySet(r);
    }
    if p.left == Occurrences(df, CrimeType, p.key) && p.right == Occurrences(ArrestedRecords(df), CrimeType, p.key) && p.right > 0 {
      assert Row(p.key, p.left) in l;
      var i :| 0 <= i < |l| && l[i] == Row(p.key, p.left);
      assert l[i].key in KeySet(r);
    }
  }

  /** The merge lists each crime type once, and has one row per crime type
      with an arrest. */
  lemma CrimeArrestJoinKeys(df: seq<Record>)
    ensures forall a, b :: 0 <= a < b < |CrimeArrestJoin(df)| ==> CrimeArrestJoin(df)[a].key != CrimeArrestJoin(df)[b].key
    ensures |CrimeArrestJoin(df)| == |CountBy(ArrestedRecords(df), CrimeType)|
  {
    var l := CountBy(df, CrimeType);
    var r := CountBy(ArrestedRecords(df), CrimeType);
    InnerJoinSize(l, r);
    KeySetSize(r);
    forall k | k in KeySet(r)
      ensures k in KeySet(l)
    {
      OccurrencesOfSelection(df, Arrested, CrimeType, k);
    }
    assert KeySet(l) * KeySet(r) == KeySet(r);
  }

  /** The facts a rate row carries: its counts are the type's record and arrest
      counts, its shares are those counts over all records, and its rate is
      arrests over records, a value in (0, 1]. */
  ghost predicate RateRowFacts(df: seq<Record>, r: RateRow)
  {
    && r.crimeCount == Occurrences(df, CrimeType, r.crimeType)
    && r.arrestCount == Occurrences(ArrestedRecords(df), CrimeType, r.crimeType)
    && 0 < r.arrestCount <= r.crimeCount
    && r.crimeShare == r.crimeCount as real / |df| as real
    && r.arrestShare == r.arrestCount as real / |df| as real
    && r.arrestRate == r.arrestCount as real / r.crimeCount as real
    && 0.0 < r.arrestRate <= 1.0
  }

  /** `crime_and_arrest` with its three rate columns: one row per crime type
      with an arrest, each type once, each row carrying its counts, shares and
      rate. */
  function RateTable(df: seq<Record>): (rows: seq<RateRow>)
    ensures |rows| == |CountBy(ArrestedRecords(df), CrimeType)|
    ensures forall a, b :: 0 <= a < b < |rows| ==> rows[a].crimeType != rows[b].crimeType
    ensures forall i :: 0 <= i < |rows| ==> RateRowFacts(df, rows[i])
  {
    var j := CrimeArrestJoin(df);
    assert forall i :: 0 <= i < |j| ==> 0 < j[i].left <= |df| by {
      forall i | 0 <= i < |j|
        ensures 0 < j[i].left <= |df|
      {
        CrimeArrestJoinRows(df, j[i]);
      }
    }
    var rows := WithRates(j, |df|);
    CrimeArrestJoinKeys(df);
    assert forall i :: 0 <= i < |rows| ==> RateRowFacts(df, rows[i]) by {
      forall i | 0 <= i < |rows|
        ensures RateRowFacts(df, rows[i])
      {
        assert j[i] in j;
        CrimeArrestJoinRows(df, j[i]);
        ArrestRateBounds(j[i].right, j[i].left, |df|);
      }
    }
    rows
  }

  /** Sort by `arrest_rate`, keep the supported types, take the first ten: at
      most ten rows, all of supported types, each drawn from the input no more
      often than it occurs there, ordered by arrest rate. */
  function RankByArrestRate(rows: seq<RateRow>, ascending: bool): (out: seq<RateRow>)
    ensures |out| <= RankingSize
    ensures forall i :: 0 <= i < |out| ==> Supported(out[i]) && out[i] in rows
    ensures multiset(out) <= multiset(rows)
    ensures Ordered(out, ArrestRateOf, ascending)
  {
    var sorted := SortValues(rows, ArrestRateOf, ascending);
    var kept := Where(sorted, Supported);
    var out := Head(kept, RankingSize);
    WhereOrdered(sorted, Supported, ArrestRateOf, ascending);
    PrefixOrdered(kept, out, ArrestRateOf, ascending);
    assert multiset(out) <= multiset(rows) by {
      SortValuesPermutes(rows, ArrestRateOf, ascending);
      WhereSubmultiset(sorted, Supported);
      HeadSubmultiset(kept, RankingSize);
    }
    assert forall i :: 0 <= i < |out| ==> out[i] in multiset(out);
    out
  }

  /** Every supported input row survives the sort and the support filter. */
  lemma SupportedRowsKept(rows: seq<RateRow>, ascending: bool, y: RateRow)
    requires y in rows && Supported(y)
    ensures y in Where(SortValues(rows, ArrestRateOf, ascending), Supported)
  {
    var sorted := SortValues(rows, ArrestRateOf, ascending);
    SortValuesPermutes(rows, ArrestRateOf, ascending);
    assert y in multiset(sorted);
    var k :| 0 <= k < |sorted| && sorted[k] == y;
  }

  /** No supported row left out of a ranking comes before a row it keeps, and
      when the ranking has fewer than ten rows it keeps every supported row. */
  lemma RankingSelection(rows: seq<RateRow>, ascending: bool)
    ensures var out := RankByArrestRate(rows, ascending);
      forall i, y :: 0 <= i < |out| && y in rows && Supported(y) && y !in out ==>
        InOrder(out[i], y, ArrestRateOf, ascending)
    ensures var out := RankByArrestRate(rows, ascending);
      |out| < RankingSize ==> forall y :: y in rows && Supported(y) ==> y in out
  {
    var sorted := SortValues(rows, ArrestRateOf, ascending);
    var kept := Where(sorted, Supported);
    var out := Head(kept, RankingSize);
    WhereOrdered(sorted, Supported, ArrestRateOf, ascending);
    forall i, y | 0 <= i < |out| && y in rows && Supported(y) && y !in out
      ensures InOrder(out[i], y, ArrestRateOf, ascending)
    {
      SupportedRowsKept(rows, ascending, y);
      var k :| 0 <= k < |kept| && kept[k] == y;
      assert out[i] == kept[i];
    }
    forall y | y in rows && Supported(y) && |out| < RankingSize
      ensures y in out
    {
      SupportedRowsKept(rows, ascending, y);
      assert out == kept;
    }
  }

  /** `highest_arrest_rate_by_crime` as written: it sorts ascending, as the
      lowest-rate ranking does, so it keeps up to ten supported crime types with
      the lowest arrest rates, lowest first, and every one when fewer qualify. */
  function HighestArrestRate(df: seq<Record>): (out: seq<RateRow>)
    ensures Ordered(out, ArrestRateOf, true)
    ensures |out| <= RankingSize
    ensures forall i :: 0 <= i < |out| ==> Supported(out[i])
    ensures multiset(out) <= multiset(RateTable(df))
    ensures |out| < RankingSize ==> forall y :: y in RateTable(df) && Supported(y) ==> y in out
    ensures forall i, y :: 0 <= i < |out| && y in RateTable(df) && Supported(y) && y !in out ==>
      out[i].arrestRate <= y.arrestRate
  {
    RankingSelection(RateTable(df), true);
    RankByArrestRate(RateTable(df), true)
  }

  /** `lowest_arrest_rate_by_crime`: up to ten supported crime types with the
      lowest arrest rates, lowest first, and every one when fewer qualify. */
  function LowestArrestRate(df: seq<Record>): (out: seq<RateRow>)
    ensures Ordered(out, ArrestRateOf, true)
    ensures |out| <= RankingSize
    ensures forall i :: 0 <= i < |out| ==> Supported(out[i])
    ensures multiset(out) <= multiset(RateTable(df))
    ensures |out| < RankingSize ==> forall y :: y in RateTable(df) && Supported(y) ==> y in out
    ensures forall i, y :: 0 <= i < |out| && y in RateTable(df) && Supported(y) && y !in out ==>
      out[i].arrestRate <= y.arrestRate
  {
    RankingSelection(RateTable(df), true);
    RankByArrestRate(RateTable(df), true)
  }

  /** The "highest" ranking returns the same rows as the "lowest" one, and the
      row it puts first has the lowest arrest rate of every supported type. */
  lemma HighestIsLowest(df: seq<Record>)
    ensures HighestArrestRate(df) == LowestArrestRate(df)
    ensures var out := HighestArrestRate(df);
      |out| > 0 ==> forall y :: y in RateTable(df) && Supported(y) ==> out[0].arrestRate <= y.arrestRate
  {
  }

  /** The ranking the highest-rate chart is titled for: sorted descending, it
      keeps up to ten supported crime types with the highest arrest rates,
      highest first, and every one when fewer qualify. */
  function IntendedHighestArrestRate(df: seq<Record>): (out: seq<RateRow>)
    ensures Ordered(out, ArrestRateOf, false)
    ensures |out| <= RankingSize
    ensures forall i :: 0 <= i < |out| ==> Supported(out[i])
    ensures multiset(out) <= multiset(RateTable(df))
    ensures |out| < RankingSize ==> forall y :: y in RateTable(df) && Supported(y) ==> y in out
    ensures forall i, y :: 0 <= i < |out| && y in RateTable(df) && Supported(y) && y !in out ==>
      y.arrestRate <= out[i].arrestRate
  {
    RankingSelection(RateTable(df), false);
    RankByArrestRate(RateTable(df), false)
  }
}
